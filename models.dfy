/** The entities of the countries app (models.py) and the read-side queries over them:
    region statistics (`RegionQuerySet.get_stats`), and the `to_dict` views of
    `RegionStats`, `RegionManager` and `Country`. */
module Models {
  import opened Wrappers
  import opened Text

  datatype Region = Region(id: nat, name: string)

  datatype TopLevelDomain = TopLevelDomain(id: nat, name: string)

  /** A country row; `region` is the id of its Region and `topLevelDomain` lists the
      ids of the linked TopLevelDomain rows (the many-to-many association). */
  datatype Country = Country(
    id: nat,
    name: string,
    alpha2Code: string,
    alpha3Code: string,
    population: int,
    capital: string,
    region: nat,
    topLevelDomain: seq<nat>)

  /** The three tables; a row's id is its position plus one (rows are never deleted). */
  datatype Db = Db(regions: seq<Region>, countries: seq<Country>, domains: seq<TopLevelDomain>)
  {
    /** The foreign keys of `c` point at existing rows and it links no domain twice. */
    ghost predicate References(c: Country)
    {
      && 1 <= c.region <= |regions|
      && (forall k | 0 <= k < |c.topLevelDomain| :: 1 <= c.topLevelDomain[k] <= |domains|)
      && (forall k, l | 0 <= k < l < |c.topLevelDomain| :: c.topLevelDomain[k] != c.topLevelDomain[l])
    }

    /** The store invariant. Names are merge keys: at most one Region, Country and
        TopLevelDomain per name (for TopLevelDomain this is the `unique=True` constraint). */
    ghost predicate Valid()
    {
      && (forall i | 0 <= i < |regions| :: regions[i].id == i + 1)
      && (forall i | 0 <= i < |countries| :: countries[i].id == i + 1)
      && (forall i | 0 <= i < |domains| :: domains[i].id == i + 1)
      && (forall i, j | 0 <= i < j < |regions| :: regions[i].name != regions[j].name)
      && (forall i, j | 0 <= i < j < |countries| :: countries[i].name != countries[j].name)
      && (forall i, j | 0 <= i < j < |domains| :: domains[i].name != domains[j].name)
      && (forall i | 0 <= i < |countries| :: References(countries[i]))
    }
  }

  /** The JSON values that the `to_dict` methods build. */
  datatype Json = JInt(i: int) | JStr(s: string) | JList(items: seq<Json>) | JObject(members: map<string, Json>)

  // ---------------------------------------------------------------------------
  // RegionStats

  datatype RegionStats = RegionStats(name: string, numberCountries: int, totalPopulation: int)

  /** `RegionStats.to_dict`. */
  function RegionStatsToDict(s: RegionStats): (r: Json)
    ensures r.JObject? && r.members.Keys == {"name", "number_countries", "total_population"}
    ensures r.members["name"] == JStr(s.name)
    ensures r.members["number_countries"] == JInt(s.numberCountries)
    ensures r.members["total_population"] == JInt(s.totalPopulation)
  {
    JObject(map[
      "name" := JStr(s.name),
      "number_countries" := JInt(s.numberCountries),
      "total_population" := JInt(s.totalPopulation)])
  }

  /** No statistic is lost in the dictionary: distinct RegionStats give distinct dicts. */
  lemma RegionStatsToDictInjective(a: RegionStats, b: RegionStats)
    requires RegionStatsToDict(a) == RegionStatsToDict(b)
    ensures a == b
  {
    assert RegionStatsToDict(a).members["name"] == RegionStatsToDict(b).members["name"];
    assert RegionStatsToDict(a).members["number_countries"] == RegionStatsToDict(b).members["number_countries"];
    assert RegionStatsToDict(a).members["total_population"] == RegionStatsToDict(b).members["total_population"];
  }

  // ---------------------------------------------------------------------------
  // The aggregate behind get_stats: a LEFT JOIN of regions with their countries.

  /** The countries whose region is `regionId`, in table order. */
  function Members(countries: seq<Country>, regionId: nat): (r: seq<Country>)
    ensures |r| <= |countries|
    ensures forall k | 0 <= k < |r| :: r[k].region == regionId && r[k] in countries
    ensures forall i | 0 <= i < |countries| && countries[i].region == regionId :: countries[i] in r
  {
    if |countries| == 0 then []
    else if countries[0].region == regionId then [countries[0]] + Members(countries[1..], regionId)
    else Members(countries[1..], regionId)
  }

  /** Each country of the region is counted as many times as it occurs in the table,
      and no other country is counted. */
  lemma {:induction false} MembersCountEachOnce(countries: seq<Country>, regionId: nat)
    ensures forall c ::
      multiset(Members(countries, regionId))[c] == (if c.region == regionId then multiset(countries)[c] else 0)
  {
    if |countries| > 0 {
      assert countries == [countries[0]] + countries[1..];
      MembersCountEachOnce(countries[1..], regionId);
    }
  }

  /** The sum of the populations of `countries`. */
  function TotalOf(countries: seq<Country>): int
  {
    if |countries| == 0 then 0 else countries[0].population + TotalOf(countries[1..])
  }

  /** SQL `SUM` of the populations: NULL over an empty group. */
  function SqlSum(countries: seq<Country>): Option<int>
  {
    if |countries| == 0 then None else Some(TotalOf(countries))
  }

  /** One row of the annotated query, turned into a RegionStats: `Count("countries")`,
      `Sum("countries__population")` and `total_population or 0`. */
  function StatFor(r: Region, countries: seq<Country>): RegionStats
  {
    var members := Members(countries, r.id);
    RegionStats(r.name, |members|, SqlSum(members).GetOr(0))
  }

  /** A region's statistic: its name, the number of countries that reference it and
      the sum of their populations; the NULL sum of a region without countries is 0. */
  lemma StatForMeaning(r: Region, countries: seq<Country>)
    ensures StatFor(r, countries).name == r.name
    ensures StatFor(r, countries).numberCountries == |Members(countries, r.id)|
    ensures StatFor(r, countries).totalPopulation == TotalOf(Members(countries, r.id))
    ensures (forall i | 0 <= i < |countries| :: countries[i].region != r.id) ==>
      StatFor(r, countries).numberCountries == 0 && StatFor(r, countries).totalPopulation == 0
  {
  }

  // ---------------------------------------------------------------------------
  // order_by("name"): insertion sort by name.

  ghost predicate SortedByName(rs: seq<Region>)
  {
    forall i, j | 0 <= i < j < |rs| :: NameLe(rs[i].name, rs[j].name)
  }

  function InsertByName(x: Region, sorted: seq<Region>): (r: seq<Region>)
    ensures multiset(r) == multiset(sorted) + multiset{x}
    ensures |r| == |sorted| + 1
  {
    if |sorted| == 0 then [x]
    else if NameLe(x.name, sorted[0].name) then [x] + sorted
    else
      assert sorted == [sorted[0]] + sorted[1..];
      [sorted[0]] + InsertByName(x, sorted[1..])
  }

  function SortByName(rs: seq<Region>): (r: seq<Region>)
    ensures multiset(r) == multiset(rs)
    ensures |r| == |rs|
  {
    if |rs| == 0 then []
    else
      assert rs == [rs[0]] + rs[1..];
      InsertByName(rs[0], SortByName(rs[1..]))
  }

  lemma {:induction false} InsertByNameSorted(x: Region, sorted: seq<Region>)
    requires SortedByName(sorted)
    ensures SortedByName(InsertByName(x, sorted))
  {
    var r := InsertByName(x, sorted);
    if |sorted| == 0 {
    } else if NameLe(x.name, sorted[0].name) {
      forall i, j | 0 <= i < j < |r|
        ensures NameLe(r[i].name, r[j].name)
      {
        if i == 0 && j > 1 {
          NameLeTransitive(x.name, sorted[0].name, sorted[j - 1].name);
        }
      }
    } else {
      var tail := sorted[1..];
      InsertByNameSorted(x, tail);
      NameLeTotal(x.name, sorted[0].name);
      var rest := InsertByName(x, tail);
      assert r == [sorted[0]] + rest;
      forall j | 0 <= j < |rest|
        ensures NameLe(sorted[0].name, rest[j].name)
      {
        assert rest[j] in multiset(rest);
        if rest[j] != x {
          assert rest[j] in multiset(tail);
          var k :| 0 <= k < |tail| && tail[k] == rest[j];
          assert sorted[k + 1] == rest[j];
        }
      }
    }
  }

  lemma {:induction false} SortByNameSorted(rs: seq<Region>)
    ensures SortedByName(SortByName(rs))
  {
    if |rs| > 0 {
      SortByNameSorted(rs[1..]);
      InsertByNameSorted(rs[0], SortByName(rs[1..]));
    }
  }

  // ---------------------------------------------------------------------------
  // get_stats

  function StatsOf(rs: seq<Region>, countries: seq<Country>): seq<RegionStats>
  {
    if |rs| == 0 then [] else [StatFor(rs[0], countries)] + StatsOf(rs[1..], countries)
  }

  lemma {:induction false} StatsOfAt(rs: seq<Region>, countries: seq<Country>)
    ensures |StatsOf(rs, countries)| == |rs|
    ensures forall i | 0 <= i < |rs| :: StatsOf(rs, countries)[i] == StatFor(rs[i], countries)
  {
    if |rs| > 0 {
      StatsOfAt(rs[1..], countries);
    }
  }

  /** Inserting a region into the ordering adds exactly its entry to the statistics. */
  lemma {:induction false} StatsOfInsert(x: Region, sorted: seq<Region>, countries: seq<Country>)
    ensures multiset(StatsOf(InsertByName(x, sorted), countries)) ==
      multiset{StatFor(x, countries)} + multiset(StatsOf(sorted, countries))
  {
    if |sorted| > 0 && !NameLe(x.name, sorted[0].name) {
      StatsOfInsert(x, sorted[1..], countries);
      assert InsertByName(x, sorted) == [sorted[0]] + InsertByName(x, sorted[1..]);
    }
  }

  /** Ordering the regions by name neither drops nor repeats an entry: the statistics
      of the ordering are those of the regions, each as often as its region occurs. */
  lemma {:induction false} SortedStatsPermute(rs: seq<Region>, countries: seq<Country>)
    ensures multiset(StatsOf(SortByName(rs), countries)) == multiset(StatsOf(rs, countries))
  {
    if |rs| > 0 {
      SortedStatsPermute(rs[1..], countries);
      StatsOfInsert(rs[0], SortByName(rs[1..]), countries);
    }
  }

  /** `RegionQuerySet.get_stats`: one entry per region, in ascending name order, each
      the statistic of that region. */
  function GetStats(db: Db): (r: seq<RegionStats>)
    ensures |r| == |db.regions|
    ensures forall i, j | 0 <= i < j < |r| :: NameLe(r[i].name, r[j].name)
    ensures forall k | 0 <= k < |db.regions| :: StatFor(db.regions[k], db.countries) in r
    ensures forall i | 0 <= i < |r| ::
      exists k | 0 <= k < |db.regions| :: r[i] == StatFor(db.regions[k], db.countries)
  {
    var sorted := SortByName(db.regions);
    SortByNameSorted(db.regions);
    StatsOfAt(sorted, db.countries);
    GetStatsFacts(db.regions, sorted, db.countries);
    StatsOf(sorted, db.countries)
  }

  /** get_stats holds each region's entry exactly as often as the region table holds
      that region, duplicate names included. */
  lemma GetStatsPermutes(db: Db)
    ensures multiset(GetStats(db)) == multiset(StatsOf(db.regions, db.countries))
  {
    SortedStatsPermute(db.regions, db.countries);
  }

  lemma GetStatsFacts(regions: seq<Region>, sorted: seq<Region>, countries: seq<Country>)
    requires multiset(sorted) == multiset(regions)
    requires |StatsOf(sorted, countries)| == |sorted|
    requires forall i | 0 <= i < |sorted| :: StatsOf(sorted, countries)[i] == StatFor(sorted[i], countries)
    ensures forall k | 0 <= k < |regions| :: StatFor(regions[k], countries) in StatsOf(sorted, countries)
    ensures forall i | 0 <= i < |sorted| ::
      exists k | 0 <= k < |regions| :: StatsOf(sorted, countries)[i] == StatFor(regions[k], countries)
  {
    var out := StatsOf(sorted, countries);
    forall k | 0 <= k < |regions|
      ensures StatFor(regions[k], countries) in out
    {
      assert regions[k] in multiset(sorted);
      var i :| 0 <= i < |sorted| && sorted[i] == regions[k];
      assert out[i] == StatFor(regions[k], countries);
    }
    forall i | 0 <= i < |sorted|
      ensures exists k | 0 <= k < |regions| :: out[i] == StatFor(regions[k], countries)
    {
      assert sorted[i] in multiset(regions);
      var k :| 0 <= k < |regions| && regions[k] == sorted[i];
      assert out[i] == StatFor(regions[k], countries);
    }
  }

  /** `RegionManager.to_dict`: `{"regions": [...]}` with one dict per get_stats entry. */
  function RegionManagerToDict(db: Db): (r: Json)
    ensures r.JObject? && r.members.Keys == {"regions"}
    ensures var items := r.members["regions"];
      && items.JList?
      && |items.items| == |db.regions|
      && forall i | 0 <= i < |items.items| :: items.items[i] == RegionStatsToDict(GetStats(db)[i])
  {
    var stats := GetStats(db);
    JObject(map["regions" := JList(seq(|stats|, i requires 0 <= i < |stats| => RegionStatsToDict(stats[i])))])
  }

  // ---------------------------------------------------------------------------
  // Every country is counted in exactly one region.

  function TotalCount(stats: seq<RegionStats>): int
  {
    if |stats| == 0 then 0 else stats[0].numberCountries + TotalCount(stats[1..])
  }

  function TotalPopulation(stats: seq<RegionStats>): int
  {
    if |stats| == 0 then 0 else stats[0].totalPopulation + TotalPopulation(stats[1..])
  }

  predicate HasId(rs: seq<Region>, id: nat)
  {
    |rs| > 0 && (rs[0].id == id || HasId(rs[1..], id))
  }

  predicate IdsDistinct(rs: seq<Region>)
  {
    |rs| == 0 || (!HasId(rs[1..], rs[0].id) && IdsDistinct(rs[1..]))
  }

  lemma {:induction false} HasIdAt(rs: seq<Region>, id: nat)
    ensures HasId(rs, id) <==> exists i | 0 <= i < |rs| :: rs[i].id == id
  {
    if |rs| > 0 {
      HasIdAt(rs[1..], id);
      if exists i | 0 <= i < |rs| :: rs[i].id == id {
        var i :| 0 <= i < |rs| && rs[i].id == id;
        if i > 0 {
          assert rs[1..][i - 1].id == id;
        }
      }
    }
  }

  /** Ids that follow on from `base` are distinct. */
  lemma {:induction false} ConsecutiveIdsDistinct(rs: seq<Region>, base: nat)
    requires forall i | 0 <= i < |rs| :: rs[i].id == base + i
    ensures IdsDistinct(rs)
  {
    if |rs| > 0 {
      HasIdAt(rs[1..], rs[0].id);
      ConsecutiveIdsDistinct(rs[1..], base + 1);
    }
  }

  lemma {:induction false} InsertHasId(x: Region, sorted: seq<Region>, id: nat)
    ensures HasId(InsertByName(x, sorted), id) <==> x.id == id || HasId(sorted, id)
  {
    if |sorted| > 0 && !NameLe(x.name, sorted[0].name) {
      InsertHasId(x, sorted[1..], id);
      assert ([sorted[0]] + InsertByName(x, sorted[1..]))[1..] == InsertByName(x, sorted[1..]);
    } else {
      assert ([x] + sorted)[1..] == sorted;
    }
  }

  lemma {:induction false} InsertKeepsIdsDistinct(x: Region, sorted: seq<Region>)
    requires IdsDistinct(sorted) && !HasId(sorted, x.id)
    ensures IdsDistinct(InsertByName(x, sorted))
  {
    if |sorted| > 0 && !NameLe(x.name, sorted[0].name) {
      var rest := InsertByName(x, sorted[1..]);
      InsertKeepsIdsDistinct(x, sorted[1..]);
      InsertHasId(x, sorted[1..], sorted[0].id);
      assert ([sorted[0]] + rest)[1..] == rest;
    } else {
      assert ([x] + sorted)[1..] == sorted;
    }
  }

  lemma {:induction false} SortHasId(rs: seq<Region>, id: nat)
    ensures HasId(SortByName(rs), id) <==> HasId(rs, id)
  {
    if |rs| > 0 {
      SortHasId(rs[1..], id);
      InsertHasId(rs[0], SortByName(rs[1..]), id);
    }
  }

  lemma {:induction false} SortKeepsIdsDistinct(rs: seq<Region>)
    requires IdsDistinct(rs)
    ensures IdsDistinct(SortByName(rs))
  {
    if |rs| > 0 {
      SortKeepsIdsDistinct(rs[1..]);
      SortHasId(rs[1..], rs[0].id);
      InsertKeepsIdsDistinct(rs[0], SortByName(rs[1..]));
    }
  }

  /** Adding country `c` in front changes region `r`'s statistic only when `c` is in `r`. */
  lemma {:induction false} StatForCons(r: Region, c: Country, rest: seq<Country>)
    ensures StatFor(r, [c] + rest).numberCountries ==
      StatFor(r, rest).numberCountries + (if c.region == r.id then 1 else 0)
    ensures StatFor(r, [c] + rest).totalPopulation ==
      StatFor(r, rest).totalPopulation + (if c.region == r.id then c.population else 0)
  {
    assert ([c] + rest)[1..] == rest;
    StatForMeaning(r, rest);
    StatForMeaning(r, [c] + rest);
    var m := Members(rest, r.id);
    if c.region == r.id {
      assert Members([c] + rest, r.id) == [c] + m;
      assert ([c] + m)[1..] == m;
    } else {
      assert Members([c] + rest, r.id) == m;
    }
  }

  /** A country whose region is not in `rs` leaves every statistic over `rs` unchanged. */
  lemma {:induction false} StatsIgnoreForeignCountry(rs: seq<Region>, c: Country, rest: seq<Country>)
    requires !HasId(rs, c.region)
    ensures TotalCount(StatsOf(rs, [c] + rest)) == TotalCount(StatsOf(rs, rest))
    ensures TotalPopulation(StatsOf(rs, [c] + rest)) == TotalPopulation(StatsOf(rs, rest))
  {
    if |rs| > 0 {
      StatsIgnoreForeignCountry(rs[1..], c, rest);
      StatForCons(rs[0], c, rest);
      StatsOfTail(rs, [c] + rest);
      StatsOfTail(rs, rest);
    }
  }

  lemma StatsOfTail(rs: seq<Region>, countries: seq<Country>)
    requires |rs| > 0
    ensures TotalCount(StatsOf(rs, countries)) ==
      StatFor(rs[0], countries).numberCountries + TotalCount(StatsOf(rs[1..], countries))
    ensures TotalPopulation(StatsOf(rs, countries)) ==
      StatFor(rs[0], countries).totalPopulation + TotalPopulation(StatsOf(rs[1..], countries))
  {
    assert StatsOf(rs, countries)[1..] == StatsOf(rs[1..], countries);
  }

  /** A country whose region occurs once in `rs` adds one to the total count and its
      population to the total population. */
  lemma {:induction false} StatsCountCountryOnce(rs: seq<Region>, c: Country, rest: seq<Country>)
    requires IdsDistinct(rs) && HasId(rs, c.region)
    ensures TotalCount(StatsOf(rs, [c] + rest)) == TotalCount(StatsOf(rs, rest)) + 1
    ensures TotalPopulation(StatsOf(rs, [c] + rest)) == TotalPopulation(StatsOf(rs, rest)) + c.population
  {
    StatForCons(rs[0], c, rest);
    StatsOfTail(rs, [c] + rest);
    StatsOfTail(rs, rest);
    if rs[0].id == c.region {
      StatsIgnoreForeignCountry(rs[1..], c, rest);
    } else {
      StatsCountCountryOnce(rs[1..], c, rest);
    }
  }

  lemma {:induction false} StatsOfNoCountries(rs: seq<Region>)
    ensures TotalCount(StatsOf(rs, [])) == 0
    ensures TotalPopulation(StatsOf(rs, [])) == 0
  {
    if |rs| > 0 {
      StatsOfNoCountries(rs[1..]);
      StatsOfTail(rs, []);
    }
  }

  lemma {:induction false} StatsConserve(rs: seq<Region>, countries: seq<Country>)
    requires IdsDistinct(rs)
    requires forall i | 0 <= i < |countries| :: HasId(rs, countries[i].region)
    ensures TotalCount(StatsOf(rs, countries)) == |countries|
    ensures TotalPopulation(StatsOf(rs, countries)) == TotalOf(countries)
  {
    if |countries| == 0 {
      StatsOfNoCountries(rs);
    } else {
      var c, rest := countries[0], countries[1..];
      assert countries == [c] + rest;
      StatsConserve(rs, rest);
      StatsCountCountryOnce(rs, c, rest);
    }
  }

  /** Summed over get_stats, `number_countries` gives the number of countries and
      `total_population` their total population: each country falls in exactly one
      region's group. */
  lemma StatsCoverEveryCountryOnce(db: Db)
    requires db.Valid()
    ensures TotalCount(GetStats(db)) == |db.countries|
    ensures TotalPopulation(GetStats(db)) == TotalOf(db.countries)
  {
    var sorted := SortByName(db.regions);
    ConsecutiveIdsDistinct(db.regions, 1);
    SortKeepsIdsDistinct(db.regions);
    forall i | 0 <= i < |db.countries|
      ensures HasId(sorted, db.countries[i].region)
    {
      var id := db.countries[i].region;
      assert db.References(db.countries[i]);
      assert db.regions[id - 1].id == id;
      HasIdAt(db.regions, id);
      SortHasId(db.regions, id);
    }
    StatsConserve(sorted, db.countries);
  }

  // ---------------------------------------------------------------------------
  // Country.to_dict

  /** The names of the linked domains, in association order. */
  function DomainNames(db: Db, ids: seq<nat>): seq<Json>
    requires forall k | 0 <= k < |ids| :: 1 <= ids[k] <= |db.domains|
  {
    seq(|ids|, k requires 0 <= k < |ids| => JStr(db.domains[ids[k] - 1].name))
  }

  /** `Country.to_dict`: stored fields as they are, `region` as the region's name and
      `topLevelDomain` as the names of the linked domains. */
  function CountryToDict(db: Db, c: Country): (r: Json)
    requires db.Valid() && db.References(c)
    ensures r.JObject?
    ensures r.members.Keys == {"name", "alpha2Code", "alpha3Code", "population", "capital", "region", "topLevelDomain"}
    ensures r.members["name"] == JStr(c.name) && r.members["capital"] == JStr(c.capital)
    ensures r.members["alpha2Code"] == JStr(c.alpha2Code) && r.members["alpha3Code"] == JStr(c.alpha3Code)
    ensures r.members["population"] == JInt(c.population)
    ensures exists k | 0 <= k < |db.regions| :: db.regions[k].id == c.region && r.members["region"] == JStr(db.regions[k].name)
    ensures r.members["topLevelDomain"].JList?
    ensures |r.members["topLevelDomain"].items| == |c.topLevelDomain|
    ensures forall k | 0 <= k < |c.topLevelDomain| ::
      r.members["topLevelDomain"].items[k] == JStr(db.domains[c.topLevelDomain[k] - 1].name)
  {
    var region := db.regions[c.region - 1];
    JObject(map[
      "name" := JStr(c.name),
      "alpha2Code" := JStr(c.alpha2Code),
      "alpha3Code" := JStr(c.alpha3Code),
      "population" := JInt(c.population),
      "capital" := JStr(c.capital),
      "region" := JStr(region.name),
      "topLevelDomain" := JList(DomainNames(db, c.topLevelDomain))])
  }

  /** The domain names that `to_dict` reports are pairwise different. */
  lemma CountryDictDomainsDistinct(db: Db, c: Country)
    requires db.Valid() && db.References(c)
    ensures var names := CountryToDict(db, c).members["topLevelDomain"].items;
      forall k, l | 0 <= k < l < |names| :: names[k] != names[l]
  {
    var names := CountryToDict(db, c).members["topLevelDomain"].items;
    forall k, l | 0 <= k < l < |names|
      ensures names[k] != names[l]
    {
      var a, b := c.topLevelDomain[k] - 1, c.topLevelDomain[l] - 1;
      assert names[k] == JStr(db.domains[a].name) && names[l] == JStr(db.domains[b].name);
      assert a != b;
      if a < b {
        assert db.domains[a].name != db.domains[b].name;
      } else {
        assert db.domains[b].name != db.domains[a].name;
      }
    }
  }
}
