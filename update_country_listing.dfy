/** The `update_country_listing` management command (`Command.handle`): merges a batch
    of source rows into the store, one row at a time and in order, writing one log
    line per created region and one per row. */
module UpdateCountryListing {
  import opened Wrappers
  import opened Models

  /** What a row holds under one key: no such key, `None`, or a value. */
  datatype Field<T> = Absent | Null | Given(value: T)

  /** One record of the source document, restricted to the keys the command reads. */
  datatype Row = Row(
    region: Field<string>,
    name: Field<string>,
    alpha2Code: Field<string>,
    alpha3Code: Field<string>,
    population: Field<int>,
    capital: Field<string>)

  datatype Outcome = Created | Updated

  /** A line the command writes: "Region: <name> - Created" or "<country> - Created|Updated". */
  datatype LogLine = RegionLine(regionName: string) | CountryLine(countryName: string, outcome: Outcome)

  /** A missing key in a row, or a NOT NULL violation when a row is created with None. */
  datatype CommandError = KeyError(key: string) | IntegrityError

  datatype State = State(db: Db, log: seq<LogLine>)

  // ---------------------------------------------------------------------------
  // Lookups by name (`get(name=...)`); names are unique in a valid store.

  /** The position of the row whose name is `name`, if any. */
  function FindByName<T>(rows: seq<T>, nameOf: T -> string, name: string): (r: Option<nat>)
    ensures r.Some? ==> r.value < |rows| && nameOf(rows[r.value]) == name
    ensures r.None? ==> forall k | 0 <= k < |rows| :: nameOf(rows[k]) != name
  {
    if |rows| == 0 then None
    else if nameOf(rows[0]) == name then Some(0)
    else match FindByName(rows[1..], nameOf, name)
      case None => None
      case Some(k) => Some(k + 1)
  }

  function RegionName(r: Region): string { r.name }

  function CountryName(c: Country): string { c.name }

  function FindRegion(regions: seq<Region>, name: string): (r: Option<nat>)
    ensures r.Some? ==> r.value < |regions| && regions[r.value].name == name
    ensures r.None? ==> forall k | 0 <= k < |regions| :: regions[k].name != name
  {
    FindByName(regions, RegionName, name)
  }

  function FindCountry(countries: seq<Country>, name: string): (r: Option<nat>)
    ensures r.Some? ==> r.value < |countries| && countries[r.value].name == name
    ensures r.None? ==> forall k | 0 <= k < |countries| :: countries[k].name != name
  {
    FindByName(countries, CountryName, name)
  }

  /** `Region.objects.get_or_create(name=name)`: the id of the region with that name,
      created (and logged) when there is none. */
  function RegionStep(st: State, name: string): (r: (State, nat))
    requires st.db.Valid()
    ensures r.0.db.Valid()
    ensures r.0.db.countries == st.db.countries && r.0.db.domains == st.db.domains
    ensures 1 <= r.1 <= |r.0.db.regions| && r.0.db.regions[r.1 - 1].name == name
    ensures (forall k | 0 <= k < |st.db.regions| :: st.db.regions[k].name != name) ==>
      && r.0.db.regions == st.db.regions + [Region(|st.db.regions| + 1, name)]
      && r.0.log == st.log + [RegionLine(name)]
    ensures (exists k | 0 <= k < |st.db.regions| :: st.db.regions[k].name == name) ==>
      r.0 == st
  {
    match FindRegion(st.db.regions, name)
    case Some(k) => (st, st.db.regions[k].id)
    case None =>
      var region := Region(|st.db.regions| + 1, name);
      (State(st.db.(regions := st.db.regions + [region]), st.log + [RegionLine(name)]), region.id)
  }

  // ---------------------------------------------------------------------------
  // fields_to_update and setattr

  datatype FieldName = Id | Name | Alpha2Code | Alpha3Code | Population | Capital | RegionFk

  /** `Country._meta.fields`, in declaration order; the many-to-many `topLevelDomain`
      is not among them. */
  const MetaFields: seq<FieldName> := [Id, Name, Alpha2Code, Alpha3Code, Population, Capital, RegionFk]

  predicate IsPrimaryKey(f: FieldName)
  {
    f == Id
  }

  /** A value as the comparison sees it; values of different kinds are never equal, as
      a Region instance never equals a string in Python. */
  datatype Value = Str(s: string) | Int(i: int) | RegionRef(regionId: nat)

  /** `getattr(country, f)`; for `region` this is the Region entity. */
  function Stored(c: Country, f: FieldName): Value
  {
    match f
    case Id => Int(c.id)
    case Name => Str(c.name)
    case Alpha2Code => Str(c.alpha2Code)
    case Alpha3Code => Str(c.alpha3Code)
    case Population => Int(c.population)
    case Capital => Str(c.capital)
    case RegionFk => RegionRef(c.region)
  }

  function StrField(x: Field<string>): Field<Value>
  {
    match x
    case Absent => Absent
    case Null => Null
    case Given(s) => Given(Str(s))
  }

  /** `row[f]`; the row's `region` is the region's name, a string. */
  function Incoming(row: Row, f: FieldName): Field<Value>
  {
    match f
    case Id => Absent
    case Name => StrField(row.name)
    case Alpha2Code => StrField(row.alpha2Code)
    case Alpha3Code => StrField(row.alpha3Code)
    case Population =>
      (match row.population
       case Absent => Absent
       case Null => Null
       case Given(n) => Given(Int(n)))
    case Capital => StrField(row.capital)
    case RegionFk => StrField(row.region)
  }

  /** The test of the `fields_to_update` comprehension. */
  predicate Qualifies(c: Country, row: Row, f: FieldName)
  {
    && !IsPrimaryKey(f)
    && Incoming(row, f) != Absent                // x.name in row
    && Incoming(row, f) != Given(Stored(c, f))   // getattr(country, x.name) != row[x.name]
    && Incoming(row, f) != Null                  // row[x.name] is not None
  }

  function Select(fs: seq<FieldName>, c: Country, row: Row): (r: seq<FieldName>)
    ensures forall f :: f in r <==> f in fs && Qualifies(c, row, f)
  {
    if |fs| == 0 then []
    else (if Qualifies(c, row, fs[0]) then [fs[0]] else []) + Select(fs[1..], c, row)
  }

  /** `fields_to_update`: the non-key fields the row supplies with a different, non-None
      value; `region` is among them whenever the row names a region. */
  function FieldsToUpdate(c: Country, row: Row): (r: seq<FieldName>)
    ensures forall f :: f in r <==> Qualifies(c, row, f)
    ensures forall f | f in r :: Incoming(row, f).Given? && f != Id
    ensures row.region.Given? ==> RegionFk in r
  {
    Select(MetaFields, c, row)
  }

  /** The value the loop assigns: the resolved Region for `region`, else `row.get(f)`. */
  function AssignedValue(row: Row, f: FieldName, regionId: nat): Value
    requires f == RegionFk || Incoming(row, f).Given?
  {
    if f == RegionFk then RegionRef(regionId) else Incoming(row, f).value
  }

  predicate Fits(f: FieldName, v: Value)
  {
    match f
    case Id => false
    case Name => v.Str?
    case Alpha2Code => v.Str?
    case Alpha3Code => v.Str?
    case Population => v.Int?
    case Capital => v.Str?
    case RegionFk => v.RegionRef?
  }

  /** `setattr(country, f, v)`. */
  function SetField(c: Country, f: FieldName, v: Value): (r: Country)
    requires Fits(f, v)
    ensures Stored(r, f) == v
    ensures forall g | g != f :: Stored(r, g) == Stored(c, g)
    ensures r.id == c.id && r.topLevelDomain == c.topLevelDomain
  {
    match f
    case Name => c.(name := v.s)
    case Alpha2Code => c.(alpha2Code := v.s)
    case Alpha3Code => c.(alpha3Code := v.s)
    case Population => c.(population := v.i)
    case Capital => c.(capital := v.s)
    case RegionFk => c.(region := v.regionId)
  }

  function Override<T>(stored: T, incoming: Field<T>): T
  {
    if incoming.Given? then incoming.value else stored
  }

  /** A country after a row has been merged into it: each key the row supplies with a
      non-None value replaces the stored value, `region` becomes the resolved Region, and
      the id and the domain links stay. */
  function Merged(c: Country, row: Row, regionId: nat): Country
  {
    c.(name := Override(c.name, row.name),
       alpha2Code := Override(c.alpha2Code, row.alpha2Code),
       alpha3Code := Override(c.alpha3Code, row.alpha3Code),
       population := Override(c.population, row.population),
       capital := Override(c.capital, row.capital),
       region := regionId)
  }

  /** The diff rule and the merge agree: a field takes the row's value (for `region`, the
      resolved Region) exactly when it qualifies for `fields_to_update`, and keeps its
      stored value otherwise. */
  lemma DiffRuleIsMerge(c: Country, row: Row, regionId: nat)
    requires row.region.Given?
    ensures forall f | f != Id ::
      Stored(Merged(c, row, regionId), f) == (if Qualifies(c, row, f) then AssignedValue(row, f, regionId) else Stored(c, f))
    ensures Merged(c, row, regionId).id == c.id
    ensures Merged(c, row, regionId).topLevelDomain == c.topLevelDomain
  {
    forall f | f != Id
      ensures Stored(Merged(c, row, regionId), f) ==
        if Qualifies(c, row, f) then AssignedValue(row, f, regionId) else Stored(c, f)
    {
      match f
      case Name =>
      case Alpha2Code =>
      case Alpha3Code =>
      case Population =>
      case Capital =>
      case RegionFk =>
    }
  }

  /** Countries that agree on id, domain links and every other field are equal. */
  lemma SameCountry(a: Country, b: Country)
    requires a.id == b.id && a.topLevelDomain == b.topLevelDomain
    requires forall f | f != Id :: Stored(a, f) == Stored(b, f)
    ensures a == b
  {
    assert Stored(a, Name) == Stored(b, Name);
    assert Stored(a, Alpha2Code) == Stored(b, Alpha2Code);
    assert Stored(a, Alpha3Code) == Stored(b, Alpha3Code);
    assert Stored(a, Population) == Stored(b, Population);
    assert Stored(a, Capital) == Stored(b, Capital);
    assert Stored(a, RegionFk) == Stored(b, RegionFk);
  }

  // ---------------------------------------------------------------------------
  // One row, and a batch of rows

  /** Saving a country over the row it was read from keeps the store valid. */
  lemma ReplaceKeepsValid(db: Db, i: nat, c: Country)
    requires db.Valid() && i < |db.countries| && db.References(c)
    requires c.id == db.countries[i].id && c.name == db.countries[i].name
    ensures db.(countries := db.countries[i := c]).Valid()
  {
    var after := db.(countries := db.countries[i := c]);
    forall k | 0 <= k < |after.countries|
      ensures after.References(after.countries[k])
    {
      if k != i {
        assert db.References(db.countries[k]);
      }
    }
  }

  /** Inserting a country under a new name and the next id keeps the store valid. */
  lemma AppendKeepsValid(db: Db, c: Country)
    requires db.Valid() && db.References(c)
    requires c.id == |db.countries| + 1
    requires forall k | 0 <= k < |db.countries| :: db.countries[k].name != c.name
    ensures db.(countries := db.countries + [c]).Valid()
  {
    var after := db.(countries := db.countries + [c]);
    forall k | 0 <= k < |after.countries|
      ensures after.References(after.countries[k])
    {
      if k < |db.countries| {
        assert db.References(db.countries[k]);
      }
    }
  }

  /** `Country.objects.get_or_create(...)` and what follows it in the loop body, once the
      row's region resolved to `regionId`. */
  function CountryStep(st: State, row: Row, regionId: nat): (r: (State, Option<CommandError>))
    requires st.db.Valid() && 1 <= regionId <= |st.db.regions|
    ensures r.0.db.Valid()
    ensures r.0.db.regions == st.db.regions && r.0.db.domains == st.db.domains
    ensures |st.db.countries| <= |r.0.db.countries| <= |st.db.countries| + 1
    ensures forall i | 0 <= i < |st.db.countries| ::
      && r.0.db.countries[i].name == st.db.countries[i].name
      && r.0.db.countries[i].topLevelDomain == st.db.countries[i].topLevelDomain
    ensures forall i | |st.db.countries| <= i < |r.0.db.countries| :: r.0.db.countries[i].topLevelDomain == []
    ensures r.1.Some? ==> r.0 == st
    ensures r.1.None? ==> row.name.Given? && exists o :: r.0.log == st.log + [CountryLine(row.name.value, o)]
  {
    if row.name.Absent? then (st, Some(KeyError("name")))
    else if row.alpha2Code.Absent? then (st, Some(KeyError("alpha2Code")))
    else if row.alpha3Code.Absent? then (st, Some(KeyError("alpha3Code")))
    else if row.population.Absent? then (st, Some(KeyError("population")))
    else if row.name.Null? then (st, Some(IntegrityError))
    else
      var name := row.name.value;
      match FindCountry(st.db.countries, name)
      case Some(i) =>
        var country := Merged(st.db.countries[i], row, regionId);
        assert st.db.References(country) by { assert st.db.References(st.db.countries[i]); }
        ReplaceKeepsValid(st.db, i, country);
        (State(st.db.(countries := st.db.countries[i := country]), st.log + [CountryLine(name, Updated)]), None)
      case None =>
        if row.alpha2Code.Null? || row.alpha3Code.Null? || row.population.Null? then
          (st, Some(IntegrityError))
        else
          var defaults := Country(|st.db.countries| + 1, name, row.alpha2Code.value,
            row.alpha3Code.value, row.population.value, "", regionId, []);
          var country := Merged(defaults, row, regionId);
          AppendKeepsValid(st.db, country);
          (State(st.db.(countries := st.db.countries + [country]), st.log + [CountryLine(name, Created)]), None)
  }

  /** The body of `for row in data`. */
  function RowEffect(st: State, row: Row): (r: (State, Option<CommandError>))
    requires st.db.Valid()
    ensures r.0.db.Valid()
    ensures r.0.db.domains == st.db.domains
    ensures st.db.regions <= r.0.db.regions
    ensures |st.db.countries| <= |r.0.db.countries| <= |st.db.countries| + 1
    ensures forall i | 0 <= i < |st.db.countries| ::
      && r.0.db.countries[i].name == st.db.countries[i].name
      && r.0.db.countries[i].topLevelDomain == st.db.countries[i].topLevelDomain
    ensures forall i | |st.db.countries| <= i < |r.0.db.countries| :: r.0.db.countries[i].topLevelDomain == []
    ensures st.log <= r.0.log
  {
    match row.region
    case Absent => (st, Some(KeyError("region")))
    case Null => (st, Some(IntegrityError))
    case Given(regionName) =>
      var resolved := RegionStep(st, regionName);
      CountryStep(resolved.0, row, resolved.1)
  }

  datatype RunResult = Completed | Aborted(at: nat, error: CommandError)

  /** `Command.handle` over `data`: rows in order, each against the state the previous
      ones left; the first error ends the run and keeps what was written before it. */
  function Run(st: State, rows: seq<Row>): (r: (State, RunResult))
    requires st.db.Valid()
    ensures r.0.db.Valid()
    ensures r.0.db.domains == st.db.domains
    ensures st.db.regions <= r.0.db.regions
    ensures |st.db.countries| <= |r.0.db.countries|
    ensures forall i | 0 <= i < |st.db.countries| ::
      && r.0.db.countries[i].name == st.db.countries[i].name
      && r.0.db.countries[i].topLevelDomain == st.db.countries[i].topLevelDomain
    ensures forall i | |st.db.countries| <= i < |r.0.db.countries| :: r.0.db.countries[i].topLevelDomain == []
    ensures st.log <= r.0.log
    ensures r.1.Aborted? ==> r.1.at < |rows|
    decreases |rows|
  {
    if |rows| == 0 then (st, Completed)
    else
      var before := Run(st, rows[..|rows| - 1]);
      if before.1.Aborted? then before
      else
        var after := RowEffect(before.0, rows[|rows| - 1]);
        (after.0, if after.1.Some? then Aborted(|rows| - 1, after.1.value) else Completed)
  }

  /** Once a prefix of the rows aborts, the rest of the batch is never looked at. */
  lemma {:induction false} RunStopsAtAbort(st: State, rows: seq<Row>, n: nat)
    requires st.db.Valid() && n <= |rows|
    requires Run(st, rows[..n]).1.Aborted?
    ensures Run(st, rows) == Run(st, rows[..n])
    decreases |rows| - n
  {
    if n < |rows| {
      var shorter := rows[..|rows| - 1];
      assert shorter[..n] == rows[..n];
      RunStopsAtAbort(st, shorter, n);
    } else {
      assert rows[..n] == rows;
    }
  }

  /** A run whose rows before the last completed ends with the last row's effect. */
  lemma RunLast(st: State, rows: seq<Row>)
    requires st.db.Valid() && |rows| > 0 && Run(st, rows[..|rows| - 1]).1 == Completed
    ensures var e := RowEffect(Run(st, rows[..|rows| - 1]).0, rows[|rows| - 1]);
      && Run(st, rows).0.db == e.0.db
      && Run(st, rows).0.log == e.0.log
      && Run(st, rows).1 == if e.1.Some? then Aborted(|rows| - 1, e.1.value) else Completed
  {
  }

  /** The value assigned to a field that qualifies has the field's type. */
  lemma AssignedValueFits(row: Row, f: FieldName, regionId: nat)
    requires f != Id && (f == RegionFk || Incoming(row, f).Given?)
    ensures Fits(f, AssignedValue(row, f, regionId))
  {
  }

  /** `for field in fields_to_update: setattr(country, field.name, value)`: assigning the
      fields that qualify yields the merged country. */
  method ApplyFields(country: Country, row: Row, regionId: nat, fields: seq<FieldName>) returns (updated: Country)
    requires row.region.Given?
    requires fields == FieldsToUpdate(country, row)
    ensures updated == Merged(country, row, regionId)
  {
    updated := country;
    var i := 0;
    while i < |fields|
      invariant 0 <= i <= |fields|
      invariant updated.id == country.id && updated.topLevelDomain == country.topLevelDomain
      invariant forall f | f != Id ::
        Stored(updated, f) == (if f in fields[..i] then AssignedValue(row, f, regionId) else Stored(country, f))
    {
      assert fields[..i + 1] == fields[..i] + [fields[i]];
      AssignedValueFits(row, fields[i], regionId);
      updated := SetField(updated, fields[i], AssignedValue(row, fields[i], regionId));
      i := i + 1;
    }
    assert fields[..i] == fields;
    DiffRuleIsMerge(country, row, regionId);
    SameCountry(updated, Merged(country, row, regionId));
  }

  // ---------------------------------------------------------------------------
  // What one row does

  /** After a row naming a region, a region with that name exists; the region table
      grows by that region, and "Region: <name> - Created" is logged, exactly when no
      region had the name before. */
  lemma RowResolvesRegion(st: State, row: Row)
    requires st.db.Valid() && row.region.Given?
    ensures var after := RowEffect(st, row).0;
      exists k | 0 <= k < |after.db.regions| :: after.db.regions[k].name == row.region.value
    ensures var after := RowEffect(st, row).0;
      (forall k | 0 <= k < |st.db.regions| :: st.db.regions[k].name != row.region.value) ==>
        && after.db.regions == st.db.regions + [Region(|st.db.regions| + 1, row.region.value)]
        && |after.log| > |st.log| && after.log[|st.log|] == RegionLine(row.region.value)
    ensures var after := RowEffect(st, row).0;
      (exists k | 0 <= k < |st.db.regions| :: st.db.regions[k].name == row.region.value) ==>
        && after.db.regions == st.db.regions
        && forall k | |st.log| <= k < |after.log| :: after.log[k].CountryLine?
  {
    var (st1, regionId) := RegionStep(st, row.region.value);
    var after := CountryStep(st1, row, regionId).0;
    assert after.db.regions[regionId - 1].name == row.region.value;
  }

  /** A row that completes creates the country it names when no country has that name,
      from the row's values with capital defaulting to "" and no domain links, and
      otherwise merges itself into the country that has the name. Either way the country
      gets the Region the row named, no other country changes, and the row's log line
      says "Created" exactly in the first case. */
  lemma RowCreatesOrMerges(st: State, row: Row)
    requires st.db.Valid() && RowEffect(st, row).1.None?
    ensures row.region.Given? && row.name.Given?
    ensures FindCountry(st.db.countries, row.name.value).None? ==>
      row.alpha2Code.Given? && row.alpha3Code.Given? && row.population.Given?
    ensures var (after, _) := RowEffect(st, row);
      var regionId := RegionStep(st, row.region.value).1;
      var cs := st.db.countries;
      && 1 <= regionId <= |after.db.regions| && after.db.regions[regionId - 1].name == row.region.value
      && match FindCountry(cs, row.name.value)
         case None =>
           && after.db.countries == cs + [Country(|cs| + 1, row.name.value, row.alpha2Code.value,
                row.alpha3Code.value, row.population.value, Override("", row.capital), regionId, [])]
           && after.log[|after.log| - 1] == CountryLine(row.name.value, Created)
         case Some(i) =>
           && after.db.countries == cs[i := Merged(cs[i], row, regionId)]
           && after.log[|after.log| - 1] == CountryLine(row.name.value, Updated)
  {
    var (st1, regionId) := RegionStep(st, row.region.value);
    assert st1.db.countries == st.db.countries;
  }

  /** Every row must carry `region`, `name`, `alpha2Code`, `alpha3Code` and `population`
      even when its country exists; a missing key fails the row before any country is
      touched (only its region may already have been created). */
  lemma MissingKeyAborts(st: State, row: Row)
    requires st.db.Valid()
    requires row.region.Absent? || (row.region.Given? && (row.name.Absent? ||
             row.alpha2Code.Absent? || row.alpha3Code.Absent? || row.population.Absent?))
    ensures RowEffect(st, row).1.Some? && RowEffect(st, row).1.value.KeyError?
    ensures RowEffect(st, row).0.db.countries == st.db.countries
    ensures RowEffect(st, row).0.db.domains == st.db.domains
    ensures row.region.Absent? ==> RowEffect(st, row) == (st, Some(KeyError("region")))
  {
  }

  /** A row that names a region and a country, carries the other three keys, and has
      non-None codes and population when its country is new, completes. */
  lemma RowCompletes(st: State, row: Row)
    requires st.db.Valid() && row.region.Given? && row.name.Given?
    requires !row.alpha2Code.Absent? && !row.alpha3Code.Absent? && !row.population.Absent?
    requires FindCountry(st.db.countries, row.name.value).None? ==>
      row.alpha2Code.Given? && row.alpha3Code.Given? && row.population.Given?
    ensures RowEffect(st, row).1.None?
  {
  }

  /** A None region, or a None name once every key is present, or a None code or
      population for a country that is new, fails the row with the NOT NULL violation. */
  lemma NullAborts(st: State, row: Row)
    requires st.db.Valid()
    requires
      || row.region.Null?
      || (&& row.region.Given?
          && !row.name.Absent? && !row.alpha2Code.Absent? && !row.alpha3Code.Absent? && !row.population.Absent?
          && (|| row.name.Null?
              || (&& FindCountry(st.db.countries, row.name.value).None?
                  && (row.alpha2Code.Null? || row.alpha3Code.Null? || row.population.Null?))))
    ensures RowEffect(st, row).1 == Some(IntegrityError)
    ensures RowEffect(st, row).0.db.countries == st.db.countries
  {
  }

  /** Merging the same row a second time changes nothing in the store: the region and
      the country are found, and the merge is idempotent; only an "Updated" line is added. */
  lemma ReprocessingIsIdempotent(st: State, row: Row)
    requires st.db.Valid() && RowEffect(st, row).1.None?
    ensures row.name.Given?
    ensures var after := RowEffect(st, row).0;
      RowEffect(after, row) == (State(after.db, after.log + [CountryLine(row.name.value, Updated)]), None)
  {
    RowCreatesOrMerges(st, row);
    var after := RowEffect(st, row).0;
    var regionId := RegionStep(st, row.region.value).1;
    SecondPassFindsRegion(st, row);
    var i := SecondPassFindsCountry(st, row);
    var c := after.db.countries[i];
    assert after.db.countries[i := c] == after.db.countries;
    assert RowEffect(after, row) == CountryStep(after, row, regionId);
  }

  /** On a second pass of a completed row, the region resolves to the same id and nothing
      is created. */
  lemma SecondPassFindsRegion(st: State, row: Row)
    requires st.db.Valid() && RowEffect(st, row).1.None?
    ensures row.region.Given?
    ensures var after := RowEffect(st, row).0;
      RegionStep(after, row.region.value) == (after, RegionStep(st, row.region.value).1)
  {
    RowCreatesOrMerges(st, row);
    var after := RowEffect(st, row).0;
    var regionId := RegionStep(st, row.region.value).1;
    assert after.db.regions[regionId - 1].name == row.region.value;
  }

  /** On a second pass of a completed row, the country is found where the first pass
      left it, and merging the row into it again changes nothing. */
  lemma SecondPassFindsCountry(st: State, row: Row) returns (i: nat)
    requires st.db.Valid() && RowEffect(st, row).1.None?
    ensures row.region.Given? && row.name.Given?
    ensures var after := RowEffect(st, row).0;
      && i < |after.db.countries|
      && FindCountry(after.db.countries, row.name.value) == Some(i)
      && Merged(after.db.countries[i], row, RegionStep(st, row.region.value).1) == after.db.countries[i]
  {
    RowCreatesOrMerges(st, row);
    var after := RowEffect(st, row).0;
    var name := row.name.value;
    var regionId := RegionStep(st, row.region.value).1;
    var cs := st.db.countries;
    i := if FindCountry(cs, name).Some? then FindCountry(cs, name).value else |cs|;
    assert after.db.countries[i] == Merged(if i < |cs| then cs[i] else after.db.countries[i], row, regionId) by {
      if i == |cs| {
        var made := Country(|cs| + 1, name, row.alpha2Code.value, row.alpha3Code.value,
          row.population.value, "", regionId, []);
        assert after.db.countries[i] == Merged(made, row, regionId);
      }
    }
    assert after.db.countries[i].name == name;
  }

  // ---------------------------------------------------------------------------
  // The log over a run

  /** The per-country lines of a log, in order. */
  function CountryLines(log: seq<LogLine>): (r: seq<LogLine>)
    ensures forall k | 0 <= k < |r| :: r[k].CountryLine?
  {
    if |log| == 0 then []
    else CountryLines(log[..|log| - 1]) + (if log[|log| - 1].CountryLine? then [log[|log| - 1]] else [])
  }

  lemma CountryLinesSnoc(log: seq<LogLine>, line: LogLine)
    ensures CountryLines(log + [line]) == CountryLines(log) + (if line.CountryLine? then [line] else [])
  {
    assert (log + [line])[..|log|] == log;
  }

  /** A row writes exactly one country line, naming the row's country, when it
      completes, and none when it fails. */
  lemma RowLogsCountryOnce(st: State, row: Row)
    requires st.db.Valid()
    ensures RowEffect(st, row).1.Some? ==>
      CountryLines(RowEffect(st, row).0.log) == CountryLines(st.log)
    ensures RowEffect(st, row).1.None? ==>
      && row.name.Given?
      && exists o :: CountryLines(RowEffect(st, row).0.log) == CountryLines(st.log) + [CountryLine(row.name.value, o)]
  {
    if row.region.Given? {
      var regionName := row.region.value;
      var (st1, regionId) := RegionStep(st, regionName);
      assert CountryLines(st1.log) == CountryLines(st.log) by {
        if st1 != st {
          CountryLinesSnoc(st.log, RegionLine(regionName));
        }
      }
      var (after, err) := CountryStep(st1, row, regionId);
      if err.None? {
        var o :| after.log == st1.log + [CountryLine(row.name.value, o)];
        CountryLinesSnoc(st1.log, CountryLine(row.name.value, o));
      }
    }
  }

  /** `lines` extends `earlier` by one line per row among the first `n` of `rows`, in
      order, each naming that row's country. */
  ghost predicate LogsRows(earlier: seq<LogLine>, lines: seq<LogLine>, rows: seq<Row>, n: nat)
  {
    && n <= |rows| && earlier <= lines && |lines| == |earlier| + n
    && forall i | 0 <= i < n ::
         && rows[i].name.Given? && lines[|earlier| + i].CountryLine?
         && lines[|earlier| + i].countryName == rows[i].name.value
  }

  lemma LogsRowsOfPrefix(earlier: seq<LogLine>, lines: seq<LogLine>, rows: seq<Row>, n: nat)
    requires |rows| > 0 && LogsRows(earlier, lines, rows[..|rows| - 1], n)
    ensures LogsRows(earlier, lines, rows, n)
  {
    assert forall i | 0 <= i < n :: rows[..|rows| - 1][i] == rows[i];
  }

  lemma LogsRowsNext(earlier: seq<LogLine>, lines: seq<LogLine>, rows: seq<Row>, o: Outcome)
    requires |rows| > 0 && LogsRows(earlier, lines, rows[..|rows| - 1], |rows| - 1)
    requires rows[|rows| - 1].name.Given?
    ensures LogsRows(earlier, lines + [CountryLine(rows[|rows| - 1].name.value, o)], rows, |rows|)
  {
    var prefix := rows[..|rows| - 1];
    var next := lines + [CountryLine(rows[|rows| - 1].name.value, o)];
    forall i | 0 <= i < |rows|
      ensures rows[i].name.Given? && next[|earlier| + i].CountryLine?
      ensures next[|earlier| + i].countryName == rows[i].name.value
    {
      if i < |prefix| {
        assert prefix[i] == rows[i];
      }
    }
  }

  /** A run writes one country line per row it completes, in row order, each naming
      that row's country; a failing row adds none and ends the run. */
  lemma {:induction false} RunLogsEachRow(st: State, rows: seq<Row>)
    requires st.db.Valid()
    ensures LogsRows(CountryLines(st.log), CountryLines(Run(st, rows).0.log), rows, Completes(st, rows))
    decreases |rows|
  {
    var earlier := CountryLines(st.log);
    if |rows| == 0 {
      assert Run(st, rows).0 == st;
    } else {
      var prefix := rows[..|rows| - 1];
      RunLogsEachRow(st, prefix);
      var before := Run(st, prefix);
      var lines := CountryLines(before.0.log);
      if before.1.Completed? {
        var last := rows[|rows| - 1];
        var effect := RowEffect(before.0, last);
        RowLogsCountryOnce(before.0, last);
        if effect.1.None? {
          var o :| CountryLines(effect.0.log) == lines + [CountryLine(last.name.value, o)];
          LogsRowsNext(earlier, lines, rows, o);
        } else {
          LogsRowsOfPrefix(earlier, lines, rows, |prefix|);
        }
      } else {
        LogsRowsOfPrefix(earlier, lines, rows, before.1.at);
      }
    }
  }

  /** The number of rows a run completes: all of them, or those before the failing one. */
  function Completes(st: State, rows: seq<Row>): (n: nat)
    requires st.db.Valid()
    ensures n <= |rows|
  {
    var result := Run(st, rows).1;
    if result.Completed? then |rows| else result.at
  }

  /** When a run aborts at row k, rows 0..k-1 stay applied and row k's partial effect
      is the final state: nothing is rolled back. */
  lemma {:induction false} AbortKeepsEarlierRows(st: State, rows: seq<Row>)
    requires st.db.Valid() && Run(st, rows).1.Aborted?
    ensures var k := Run(st, rows).1.at;
      && k < |rows|
      && Run(st, rows[..k]).1 == Completed
      && RowEffect(Run(st, rows[..k]).0, rows[k]) == (Run(st, rows).0, Some(Run(st, rows).1.error))
    decreases |rows|
  {
    var prefix := rows[..|rows| - 1];
    var before := Run(st, prefix);
    if before.1.Aborted? {
      assert Run(st, rows) == before;
      AbortKeepsEarlierRows(st, prefix);
      var k := before.1.at;
      assert prefix[..k] == rows[..k];
      assert prefix[k] == rows[k];
    } else {
      assert Run(st, rows).1.at == |rows| - 1;
      assert rows[..|rows| - 1] == prefix;
    }
  }

  // ---------------------------------------------------------------------------
  // The command over a store held in place

  class CountryListing {
    var regions: seq<Region>
    var countries: seq<Country>
    var domains: seq<TopLevelDomain>
    /** What the command wrote to stdout. */
    var log: seq<LogLine>

    function Snapshot(): State
      reads this
    {
      State(Db(regions, countries, domains), log)
    }

    ghost predicate Valid()
      reads this
    {
      Snapshot().db.Valid()
    }

    constructor (db: Db)
      requires db.Valid()
      ensures Valid() && Snapshot() == State(db, [])
    {
      regions, countries, domains, log := db.regions, db.countries, db.domains, [];
    }

    /** `Region.objects.get_or_create(name=name)` and its "Created" line. */
    method ResolveRegion(name: string) returns (regionId: nat)
      requires Valid()
      modifies this
      ensures Valid()
      ensures (Snapshot(), regionId) == RegionStep(old(Snapshot()), name)
    {
      var found := FindRegion(regions, name);
      if found.Some? {
        regionId := regions[found.value].id;
      } else {
        regionId := |regions| + 1;
        regions := regions + [Region(regionId, name)];
        log := log + [RegionLine(name)];
      }
    }

    /** One pass of the loop body of `Command.handle`. */
    method HandleRow(row: Row) returns (err: Option<CommandError>)
      requires Valid()
      modifies this
      ensures Valid()
      ensures (Snapshot(), err) == RowEffect(old(Snapshot()), row)
    {
      if row.region.Absent? {
        return Some(KeyError("region"));
      }
      if row.region.Null? {
        return Some(IntegrityError);
      }
      var regionId := ResolveRegion(row.region.value);
      err := MergeCountry(row, regionId);
    }

    /** `Country.objects.get_or_create(name=row["name"], defaults=...)`, the field diff,
        `country.save()` and the row's log line. */
    method MergeCountry(row: Row, regionId: nat) returns (err: Option<CommandError>)
      requires Valid() && row.region.Given? && 1 <= regionId <= |regions|
      modifies this
      ensures Valid()
      ensures (Snapshot(), err) == CountryStep(old(Snapshot()), row, regionId)
    {
      if row.name.Absent? {
        return Some(KeyError("name"));
      }
      if row.alpha2Code.Absent? {
        return Some(KeyError("alpha2Code"));
      }
      if row.alpha3Code.Absent? {
        return Some(KeyError("alpha3Code"));
      }
      if row.population.Absent? {
        return Some(KeyError("population"));
      }
      if row.name.Null? {
        return Some(IntegrityError);
      }
      var existing := FindCountry(countries, row.name.value);
      if existing.Some? {
        UpdateCountry(row, regionId, existing.value);
      } else {
        if row.alpha2Code.Null? || row.alpha3Code.Null? || row.population.Null? {
          return Some(IntegrityError);
        }
        CreateCountry(row, regionId);
      }
      err := None;
    }

    /** The `get_or_create` call found the stored country at `index`: the qualifying
        fields are assigned, the row saved and "Updated" logged. */
    method UpdateCountry(row: Row, regionId: nat, index: nat)
      requires Valid() && row.region.Given? && 1 <= regionId <= |regions|
      requires row.name.Given? && !row.alpha2Code.Absent? && !row.alpha3Code.Absent? && !row.population.Absent?
      requires FindCountry(countries, row.name.value) == Some(index)
      modifies this
      ensures Valid()
      ensures (Snapshot(), None) == CountryStep(old(Snapshot()), row, regionId)
    {
      var country := countries[index];
      var fields := FieldsToUpdate(country, row);
      country := ApplyFields(country, row, regionId, fields);
      countries := countries[index := country];
      log := log + [CountryLine(row.name.value, Updated)];
    }

    /** The `get_or_create` call created the country from the row's defaults; it is saved
        again only when the field diff finds something to assign, and "Created" is logged. */
    method CreateCountry(row: Row, regionId: nat)
      requires Valid() && row.region.Given? && 1 <= regionId <= |regions|
      requires row.name.Given? && row.alpha2Code.Given? && row.alpha3Code.Given? && row.population.Given?
      requires FindCountry(countries, row.name.value).None?
      modifies this
      ensures Valid()
      ensures (Snapshot(), None) == CountryStep(old(Snapshot()), row, regionId)
    {
      var index := |countries|;
      var country := Country(index + 1, row.name.value, row.alpha2Code.value, row.alpha3Code.value,
        row.population.value, "", regionId, []);
      ghost var defaults := country;
      countries := countries + [country];
      var fields := FieldsToUpdate(country, row);
      assert RegionFk in fields;
      country := ApplyFields(country, row, regionId, fields);
      if |fields| > 0 {
        countries := countries[index := country];
      }
      assert countries == old(countries) + [Merged(defaults, row, regionId)];
      log := log + [CountryLine(row.name.value, Created)];
    }

    /** `Command.handle` on the rows `get_data` returned. */
    method Handle(data: seq<Row>) returns (result: RunResult)
      requires Valid()
      modifies this
      ensures Valid()
      ensures (Snapshot(), result) == Run(old(Snapshot()), data)
    {
      ghost var start := Snapshot();
      var i := 0;
      while i < |data|
        invariant 0 <= i <= |data|
        invariant Valid()
        invariant Run(start, data[..i]).0.db == Snapshot().db
        invariant Run(start, data[..i]).0.log == log
        invariant Run(start, data[..i]).1 == Completed
      {
        ghost var before := Snapshot();
        assert Run(start, data[..i]).0 == before;
        assert data[..i + 1][..i] == data[..i];
        RunLast(start, data[..i + 1]);
        var err := HandleRow(data[i]);
        ghost var effect := RowEffect(before, data[i]);
        assert Snapshot() == effect.0 && err == effect.1;
        if err.Some? {
          result := Aborted(i, err.value);
          RunStopsAtAbort(start, data, i + 1);
          assert Run(start, data) == Run(start, data[..i + 1]);
          return;
        }
        i := i + 1;
      }
      assert data[..i] == data;
      result := Completed;
    }
  }
}
