// The two read-only JSON views: `stats` and `detail`.

module Views {
  import opened Wrappers
  import opened Text
  import opened Models

  /** A `JsonResponse`: an HTTP status and the JSON body. */
  datatype Response = Response(status: int, body: Json)

  /** The exceptions `detail` lets escape (the server turns them into a 500). */
  datatype ViewError = ValueError | MultipleObjectsReturned

  datatype ViewResult = Returned(response: Response) | Raised(error: ViewError)

  // ---------------------------------------------------------------------------
  // stats

  /** `stats`: `{"regions": [...]}` built from `get_stats`, status 200. It is the same
      document that `RegionManager.to_dict` builds. */
  function Stats(db: Db): (r: Response)
    ensures r.status == 200
    ensures r.body == RegionManagerToDict(db)
    ensures |db.regions| == 0 ==> r.body == JObject(map["regions" := JList([])])
  {
    var regions := GetStats(db);
    Response(200, JObject(map["regions" := JList(seq(|regions|, i requires 0 <= i < |regions| => RegionStatsToDict(regions[i])))]))
  }

  // ---------------------------------------------------------------------------
  // The `id` lookup value: the URL segment, converted the way the primary key field
  // converts it (an optional sign and decimal digits), or ValueError.

  predicate IsDigit(c: char)
  {
    '0' <= c <= '9'
  }

  predicate AllDigits(s: string)
  {
    forall i | 0 <= i < |s| :: IsDigit(s[i])
  }

  function DigitsValue(s: string): nat
    requires AllDigits(s)
  {
    if |s| == 0 then 0 else DigitsValue(s[..|s| - 1]) * 10 + (s[|s| - 1] as int - '0' as int)
  }

  function ParseInt(s: string): (r: Option<int>)
    ensures r.Some? ==> |s| > 0 && forall i | 0 < i < |s| :: IsDigit(s[i])
    ensures r.Some? && IsDigit(s[0]) ==> r.value >= 0
    ensures r.Some? <==>
      (|s| > 0 && AllDigits(s)) || (|s| > 1 && (s[0] == '+' || s[0] == '-') && AllDigits(s[1..]))
    ensures |s| > 0 && AllDigits(s) ==> r == Some(DigitsValue(s))
    ensures |s| > 1 && s[0] == '-' && AllDigits(s[1..]) ==> r == Some(-(DigitsValue(s[1..]) as int))
    ensures |s| > 1 && s[0] == '+' && AllDigits(s[1..]) ==> r == Some(DigitsValue(s[1..]))
  {
    if |s| > 0 && (s[0] == '+' || s[0] == '-') then
      var digits := s[1..];
      if |digits| > 0 && AllDigits(digits) then
        Some(if s[0] == '-' then -(DigitsValue(digits) as int) else DigitsValue(digits))
      else None
    else if |s| > 0 && AllDigits(s) then Some(DigitsValue(s))
    else None
  }

  /** The decimal spelling of a key, as it appears in `/countries/id:<key>/`. */
  function IdString(n: nat): (s: string)
    ensures |s| > 0 && AllDigits(s)
  {
    var last := ('0' as int + n % 10) as char;
    if n < 10 then [last] else IdString(n / 10) + [last]
  }

  lemma {:induction false} IdStringValue(n: nat)
    ensures DigitsValue(IdString(n)) == n
  {
    var s := IdString(n);
    assert s[..|s| - 1] == (if n < 10 then [] else IdString(n / 10));
    if n >= 10 {
      IdStringValue(n / 10);
    }
  }

  /** Every key, spelled in decimal, converts back to itself. */
  lemma ParseIdString(n: nat)
    ensures ParseInt(IdString(n)) == Some(n)
  {
    IdStringValue(n);
  }

  /** A leading sign is honoured: "-7" converts to -7 and "+7" to 7. */
  lemma ParseSigned(n: nat)
    ensures ParseInt("-" + IdString(n)) == Some(-(n as int))
    ensures ParseInt("+" + IdString(n)) == Some(n)
  {
    IdStringValue(n);
    assert ("-" + IdString(n))[1..] == IdString(n);
    assert ("+" + IdString(n))[1..] == IdString(n);
  }

  // ---------------------------------------------------------------------------
  // detail

  /** Which countries the query set of `detail` keeps. */
  datatype Selection = ById(id: int) | ByName(name: string) | Everything

  /** A URL segment is truthy when it is given and not empty. */
  predicate Truthy(s: Option<string>)
  {
    s.Some? && |s.value| > 0
  }

  /** The filter `detail` applies: by id when an id is given, else by name ignoring
      case when a name is given, else none; None when the id does not convert. */
  function SelectionOf(countryId: Option<string>, countryName: Option<string>): (r: Option<Selection>)
    ensures Truthy(countryId) ==> (r.None? <==> ParseInt(countryId.value).None?)
    ensures Truthy(countryId) && r.Some? ==> r.value == ById(ParseInt(countryId.value).value)
    ensures !Truthy(countryId) ==> r.Some? && !r.value.ById?
    ensures !Truthy(countryId) && Truthy(countryName) ==> r == Some(ByName(countryName.value))
    ensures !Truthy(countryId) && !Truthy(countryName) ==> r == Some(Everything)
  {
    if Truthy(countryId) then
      match ParseInt(countryId.value)
      case None => None
      case Some(id) => Some(ById(id))
    else if Truthy(countryName) then Some(ByName(countryName.value))
    else Some(Everything)
  }

  predicate Selects(sel: Selection, c: Country)
  {
    match sel
    case ById(id) => c.id == id
    case ByName(name) => SameIgnoringCase(c.name, name)
    case Everything => true
  }

  /** The filtered query set: exactly the countries the selection keeps. */
  function Matching(countries: seq<Country>, sel: Selection): (r: seq<Country>)
    ensures forall k | 0 <= k < |r| :: r[k] in countries && Selects(sel, r[k])
    ensures forall c | c in countries && Selects(sel, c) :: c in r
  {
    if |countries| == 0 then []
    else
      var rest := Matching(countries[1..], sel);
      assert forall c | c in countries[1..] :: c in countries;
      if Selects(sel, countries[0]) then [countries[0]] + rest
      else rest
  }

  /** The query set is empty exactly when no country is kept. */
  lemma NoneMatching(countries: seq<Country>, sel: Selection)
    ensures |Matching(countries, sel)| == 0 <==> forall k | 0 <= k < |countries| :: !Selects(sel, countries[k])
  {
    var found := Matching(countries, sel);
    if |found| > 0 {
      var k := IndexOf(countries, found[0]);
      assert Selects(sel, countries[k]);
    }
  }

  /** The query set has two or more rows exactly when two countries are kept. */
  lemma SeveralMatching(countries: seq<Country>, sel: Selection)
    ensures |Matching(countries, sel)| > 1 <==>
      exists k, l | 0 <= k < l < |countries| :: Selects(sel, countries[k]) && Selects(sel, countries[l])
  {
    if |Matching(countries, sel)| > 1 {
      var k, l := KeptPair(countries, sel);
    }
    if exists k, l | 0 <= k < l < |countries| :: Selects(sel, countries[k]) && Selects(sel, countries[l]) {
      var k, l :| 0 <= k < l < |countries| && Selects(sel, countries[k]) && Selects(sel, countries[l]);
      PairMatching(countries, sel, k, l);
    }
  }

  lemma {:induction false} KeptPair(countries: seq<Country>, sel: Selection) returns (k: nat, l: nat)
    requires |Matching(countries, sel)| > 1
    ensures k < l < |countries| && Selects(sel, countries[k]) && Selects(sel, countries[l])
    decreases |countries|
  {
    var rest := countries[1..];
    if Selects(sel, countries[0]) {
      NoneMatching(rest, sel);
      var m :| 0 <= m < |rest| && Selects(sel, rest[m]);
      k, l := 0, m + 1;
    } else {
      var k', l' := KeptPair(rest, sel);
      k, l := k' + 1, l' + 1;
    }
  }

  lemma {:induction false} PairMatching(countries: seq<Country>, sel: Selection, k: nat, l: nat)
    requires k < l < |countries| && Selects(sel, countries[k]) && Selects(sel, countries[l])
    ensures |Matching(countries, sel)| > 1
    decreases |countries|
  {
    var rest := countries[1..];
    if k == 0 {
      assert countries[l] in rest;
    } else {
      assert rest[k - 1] == countries[k] && rest[l - 1] == countries[l];
      PairMatching(rest, sel, k - 1, l - 1);
    }
  }

  /** When exactly one country is kept, the query set is that one. */
  lemma {:induction false} OneMatching(countries: seq<Country>, sel: Selection, k: nat)
    requires k < |countries| && Selects(sel, countries[k])
    requires forall l | 0 <= l < |countries| && l != k :: !Selects(sel, countries[l])
    ensures Matching(countries, sel) == [countries[k]]
    decreases |countries|
  {
    var rest := countries[1..];
    if k == 0 {
      NoneMatching(rest, sel);
      assert forall l | 0 <= l < |rest| :: !Selects(sel, rest[l]);
    } else {
      assert forall l | 0 <= l < |rest| && l != k - 1 :: !Selects(sel, rest[l]);
      OneMatching(rest, sel, k - 1);
    }
  }

  const NotFound := Response(404, JObject(map["error" := JStr("Country not found")]))

  function Found(db: Db, c: Country): Response
    requires db.Valid() && db.References(c)
  {
    Response(200, JObject(map["country" := CountryToDict(db, c)]))
  }

  /** `detail`: the one country the selection keeps as `{"country": ...}`; a 404 with
      `{"error": "Country not found"}` when it keeps none; MultipleObjectsReturned when it
      keeps several; ValueError when the id does not convert. */
  function Detail(db: Db, countryId: Option<string>, countryName: Option<string>): (r: ViewResult)
    requires db.Valid()
    ensures r == Raised(ValueError) <==> SelectionOf(countryId, countryName).None?
    ensures var sel := SelectionOf(countryId, countryName);
      sel.Some? ==>
        && (r == Returned(NotFound) <==> forall k | 0 <= k < |db.countries| :: !Selects(sel.value, db.countries[k]))
        && (r == Raised(MultipleObjectsReturned) <==>
              exists k, l | 0 <= k < l < |db.countries| :: Selects(sel.value, db.countries[k]) && Selects(sel.value, db.countries[l]))
        && forall k | 0 <= k < |db.countries| && Selects(sel.value, db.countries[k]) ::
             (forall l | 0 <= l < |db.countries| && l != k :: !Selects(sel.value, db.countries[l])) ==>
               r == Returned(Found(db, db.countries[k]))
  {
    match SelectionOf(countryId, countryName)
    case None => Raised(ValueError)
    case Some(sel) =>
      NoneMatching(db.countries, sel);
      SeveralMatching(db.countries, sel);
      var found := Matching(db.countries, sel);
      if |found| == 0 then Returned(NotFound)
      else if |found| > 1 then Raised(MultipleObjectsReturned)
      else
        var k := IndexOf(db.countries, found[0]);
        assert forall l | 0 <= l < |db.countries| && Selects(sel, db.countries[l]) :: l == k by {
          forall l | 0 <= l < |db.countries| && Selects(sel, db.countries[l])
            ensures l == k
          {
            assert db.countries[l] in found;
          }
        }
        Returned(Found(db, db.countries[k]))
  }

  function IndexOf(cs: seq<Country>, c: Country): (k: nat)
    requires c in cs
    ensures k < |cs| && cs[k] == c
  {
    if cs[0] == c then 0 else 1 + IndexOf(cs[1..], c)
  }

  // ---------------------------------------------------------------------------
  // What the lookups promise

  /** When an id is given, the name is never looked at. */
  lemma IdTakesPrecedence(db: Db, countryId: string, countryName: Option<string>)
    requires db.Valid() && |countryId| > 0
    ensures Detail(db, Some(countryId), countryName) == Detail(db, Some(countryId), None)
  {
  }

  /** `/countries/id:<id>/` finds every stored country by its key. */
  lemma ExistingIdIsFound(db: Db, i: nat)
    requires db.Valid() && i < |db.countries|
    ensures Detail(db, Some(IdString(db.countries[i].id)), None) == Returned(Found(db, db.countries[i]))
  {
    ParseIdString(db.countries[i].id);
  }

  /** A key no stored country has is a 404, whether it is out of range, zero or negative. */
  lemma UnknownIdIsNotFound(db: Db, countryId: string)
    requires db.Valid() && |countryId| > 0
    requires ParseInt(countryId).Some?
    requires var id := ParseInt(countryId).value; id < 1 || id > |db.countries|
    ensures Detail(db, Some(countryId), None) == Returned(NotFound)
  {
  }

  /** `/countries/name:<name>/` matches the stored name ignoring case: a stored country
      is never reported missing, and it is returned when no other stored name matches. */
  lemma StoredNameIsFound(db: Db, i: nat, query: string)
    requires db.Valid() && i < |db.countries| && |query| > 0
    requires SameIgnoringCase(db.countries[i].name, query)
    ensures Detail(db, None, Some(query)) != Returned(NotFound)
    ensures Detail(db, None, Some(query)).Raised? ==> Detail(db, None, Some(query)).error == MultipleObjectsReturned
    ensures (forall l | 0 <= l < |db.countries| && l != i :: !SameIgnoringCase(db.countries[l].name, query)) ==>
      Detail(db, None, Some(query)) == Returned(Found(db, db.countries[i]))
  {
  }

  /** Two stored names that differ only in case make the name lookup ambiguous. */
  lemma CaseVariantsAreAmbiguous(db: Db, i: nat, j: nat, query: string)
    requires db.Valid() && i < j < |db.countries| && |query| > 0
    requires SameIgnoringCase(db.countries[i].name, query) && SameIgnoringCase(db.countries[j].name, query)
    ensures Detail(db, None, Some(query)) == Raised(MultipleObjectsReturned)
  {
  }
}
