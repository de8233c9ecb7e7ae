# Country listing: a Dafny model

This project models the core of a Django app that keeps a reference list of countries.
Each country belongs to a region and links to a set of top-level domains. The app has three parts:

- **`update_country_listing`**, a management command. It merges a batch of country
  records from an external source into the store, one record at a time and in order.
  For each record it calls get-or-create on the region by name, then get-or-create on
  the country by name. It then overwrites every non-key field the record supplies with
  a different, non-`None` value, saves the country, and writes one log line.
- **The model layer's aggregate and serialisation methods**:
  - `RegionQuerySet.get_stats` returns per-region country counts and population sums,
    ordered by region name;
  - `RegionStats.to_dict`, `RegionManager.to_dict` and `Country.to_dict` build the JSON
    documents.
- **The two JSON views**: `stats` and `detail`. `detail` looks a country up by key, by
  name ignoring case, or takes the only one.

The store is a `Db` value (`models.dfy`) made of three tables. Each table is a sequence
whose ids are positions + 1. Its invariant, `Db.Valid`, also says that names are unique
and every foreign key resolves.

- The command is modelled twice in `update_country_listing.dfy`:
  - as functions over a `State` (store + log): `RegionStep`, `CountryStep`, `RowEffect`
    and `Run`;
  - as the class `CountryListing`, which holds the tables and the log in fields and
    updates them in place. Its methods `ResolveRegion`, `MergeCountry` (with its two
    paths `UpdateCountry` and `CreateCountry`), `HandleRow` and `Handle` are proved
    equal to those functions. `ApplyFields` is the `setattr` loop,
    proved equal to the merge `Merged`.
- A record is a `Row`. Each key is `Absent`, `Null` (JSON `null`) or `Given(value)`. The
  errors the command lets escape are a `KeyError` for a missing key and an
  `IntegrityError` for a NOT NULL violation; a row with neither completes. A run stops at the first one. Earlier rows,
  and a region created by the failing row, stay written.
- Python compares a `Region` instance with the row's region string with `!=`, which is
  always true. So `region` is always in `fields_to_update`, and every processed country
  is saved.

Further facts of the code that the model keeps:

- **Domains.** The command never touches top-level domains; new countries get no
  domain links.
- **Required keys.** Every row must carry `region`, `name`, `alpha2Code`, `alpha3Code`
  and `population`, even when its country already exists, because the `defaults`
  dictionary is built before the lookup.
- **Outcomes.** Each completed row logs its country as `Created` or `Updated`.
- **`detail` errors.** A non-numeric id raises `ValueError`, and a name that matches
  several countries ignoring case raises `MultipleObjectsReturned`; both escape the
  view. With neither id nor name, `detail` returns the only country.

## Model

| member | source | states |
|---|---|---|
| Text.NameLeTotal | testsite/countries/models.py:31 | the name order used by `order_by("name")` relates any two names |
| Text.NameLeTransitive | testsite/countries/models.py:31 | the name order is transitive |
| Text.NameLeAntisymmetric | testsite/countries/models.py:31 | two names ordered both ways are equal, so the region order is determined |
| Text.SameIgnoringCaseIsEquivalence | testsite/countries/views.py:20 | `iexact` matching is reflexive, symmetric and transitive |
| Text.SameIgnoringCaseCharwise | testsite/countries/views.py:20 | two names match ignoring case iff they have equal length and agree position by position after ASCII lower-casing |
| Models.RegionStatsToDict | testsite/countries/models.py:15-20 | the dict has exactly the keys name, number_countries, total_population, holding the stats' values |
| Models.RegionStatsToDictInjective | testsite/countries/models.py:15-20 | different stats give different dicts |
| Models.Members | testsite/countries/models.py:27-28 | a country is counted for a region exactly when it is in the table and its foreign key is that region |
| Models.MembersCountEachOnce | testsite/countries/models.py:27-28 | as multisets, each country of the region is counted as many times as it occurs in the table, and no other country is counted |
| Models.StatForMeaning | testsite/countries/models.py:26-37 | a region's entry has its name, the number of its countries and the sum of their populations; with no countries, count 0 and total 0 (the `or 0` of line 37) |
| Models.SortByName | testsite/countries/models.py:31 | the region ordering is a permutation of the regions |
| Models.SortByNameSorted | testsite/countries/models.py:31 | the region ordering is sorted by name |
| Models.GetStats | testsite/countries/models.py:24-40 | as many entries as regions, sorted by name; every region's entry appears, and every entry is some region's entry |
| Models.SortedStatsPermute | testsite/countries/models.py:26-31 | ordering the regions by name before computing the statistics neither drops nor repeats an entry (equal multisets) |
| Models.GetStatsPermutes | testsite/countries/models.py:24-40 | get_stats holds each region's entry exactly as often as the region table holds that region, with duplicate names included |
| Models.StatsConserve | testsite/countries/models.py:26-29 | over regions with distinct ids that include every country's region, the counts sum to the number of countries and the totals to their whole population |
| Models.StatsCoverEveryCountryOnce | testsite/countries/models.py:24-40 | in a valid store, the counts of `get_stats` add up to the number of countries and the totals to the whole population |
| Models.RegionManagerToDict | testsite/countries/models.py:50-51 | `{"regions": [...]}` with one dict per `get_stats` entry, in the same order |
| Models.CountryToDict | testsite/countries/models.py:84-95 | the seven keys; name, codes, population and capital copied; region is the owning region's name; topLevelDomain lists the linked domains' names, one per link |
| Models.CountryDictDomainsDistinct | testsite/countries/models.py:92-94 | the domain names a country reports are pairwise different |
| UpdateCountryListing.FindByName | testsite/countries/management/commands/update_country_listing.py:20-27 | the lookup by exact name that both `get_or_create` calls start with: it finds the index of a row with the name, or reports that no row has it |
| UpdateCountryListing.FindRegion | testsite/countries/management/commands/update_country_listing.py:20 | the lookup finds an index of a region with the name, or reports that none has it |
| UpdateCountryListing.FindCountry | testsite/countries/management/commands/update_country_listing.py:26-27 | the lookup finds an index of a country with the name, or reports that none has it |
| UpdateCountryListing.RegionStep | testsite/countries/management/commands/update_country_listing.py:20-24 | get-or-create keeps the store valid and returns the id of the region with the name; it appends the region and logs "Created" when none existed, and otherwise changes nothing |
| UpdateCountryListing.FieldsToUpdate | testsite/countries/management/commands/update_country_listing.py:36-43 | a field is selected iff it is not the key, the row has it, its value differs from the stored one and is not None; `region` is always selected when the row names one |
| UpdateCountryListing.SetField | testsite/countries/management/commands/update_country_listing.py:48 | `setattr` changes that field to the value and no other field |
| UpdateCountryListing.DiffRuleIsMerge | testsite/countries/management/commands/update_country_listing.py:36-48 | applying the selected fields equals the merge: a selected field takes the row's value (region: the resolved Region), every other field keeps its stored value, id and domain links stay |
| UpdateCountryListing.ApplyFields | testsite/countries/management/commands/update_country_listing.py:46-48 | the `setattr` loop over `fields_to_update` yields the merged country |
| UpdateCountryListing.CountryStep | testsite/countries/management/commands/update_country_listing.py:26-59 | the country part of a row keeps the store valid, changes no region or domain, keeps existing names and links; on error nothing changes, otherwise exactly one line naming the row's country is logged |
| UpdateCountryListing.RowEffect | testsite/countries/management/commands/update_country_listing.py:19-59 | one row keeps the store valid, leaves domains alone, only appends regions, adds at most one country, keeps existing names and domain links, gives a new country no links, and only appends to the log |
| UpdateCountryListing.Run | testsite/countries/management/commands/update_country_listing.py:17-59 | the whole loop keeps the same frame as one row; an abort names a row of the batch |
| UpdateCountryListing.RunStopsAtAbort | testsite/countries/management/commands/update_country_listing.py:19-20 | once a prefix of the batch aborts, later rows are never processed |
| UpdateCountryListing.AbortKeepsEarlierRows | testsite/countries/management/commands/update_country_listing.py:18-34 | when row k fails, rows before it ran to completion, and the final state is row k's partial effect on their result (nothing is rolled back) |
| UpdateCountryListing.RowResolvesRegion | testsite/countries/management/commands/update_country_listing.py:20-24 | after a row, its region exists; the region table grows by it and "Region: ... - Created" is logged exactly when no region had the name |
| UpdateCountryListing.RowCreatesOrMerges | testsite/countries/management/commands/update_country_listing.py:26-51 | a completed row appends a new country (row values, capital defaulting to "", no links) logged "Created" when none has the name, and otherwise merges into the named country, logged "Updated"; no other country changes |
| UpdateCountryListing.RowCompletes | testsite/countries/management/commands/update_country_listing.py:20-59 | a row with a region, a name and the other three keys completes, provided its codes and population are not None when the country is new |
| UpdateCountryListing.NullAborts | testsite/countries/management/commands/update_country_listing.py:20-34 | a None region, a None name, or a None code or population for a new country fails the row with IntegrityError, and no country changes |
| UpdateCountryListing.MissingKeyAborts | testsite/countries/management/commands/update_country_listing.py:20-31 | a row missing region, name, alpha2Code, alpha3Code or population fails with KeyError before any country changes, even when the country exists |
| UpdateCountryListing.ReprocessingIsIdempotent | testsite/countries/management/commands/update_country_listing.py:20-51 | handling the same row again changes nothing in the store and logs "Updated" |
| UpdateCountryListing.RowLogsCountryOnce | testsite/countries/management/commands/update_country_listing.py:53-59 | a completed row writes exactly one country line, with its country's name; a failed row writes none |
| UpdateCountryListing.RunLogsEachRow | testsite/countries/management/commands/update_country_listing.py:19-59 | a run writes one country line per completed row, in row order, each naming that row's country |
| UpdateCountryListing.CountryListing.ResolveRegion | testsite/countries/management/commands/update_country_listing.py:20-24 | the in-place get-or-create of the region does what `RegionStep` specifies |
| UpdateCountryListing.CountryListing.MergeCountry | testsite/countries/management/commands/update_country_listing.py:26-59 | the in-place country get-or-create, field diff, save and log line do what `CountryStep` specifies |
| UpdateCountryListing.CountryListing.UpdateCountry | testsite/countries/management/commands/update_country_listing.py:36-59 | for a country found by name, assigning the qualifying fields in place, saving and logging "Updated" does what `CountryStep` specifies |
| UpdateCountryListing.CountryListing.CreateCountry | testsite/countries/management/commands/update_country_listing.py:26-59 | for a new name, inserting the defaults, saving again only when the field diff is non-empty, and logging "Created" does what `CountryStep` specifies |
| UpdateCountryListing.CountryListing.HandleRow | testsite/countries/management/commands/update_country_listing.py:19-59 | one iteration of the loop in place does what `RowEffect` specifies |
| UpdateCountryListing.CountryListing.Handle | testsite/countries/management/commands/update_country_listing.py:17-59 | `handle` in place leaves the store, log and result that `Run` specifies |
| Views.Stats | testsite/countries/views.py:6-10 | status 200, and the body equals `RegionManager.to_dict`; `{"regions": []}` when there are no regions |
| Views.ParseInt | testsite/countries/views.py:18 | an id string converts iff it is one or more decimal digits after an optional "+" or "-"; the value is the digits' decimal value, negated after "-" |
| Views.ParseIdString | testsite/countries/views.py:18 | every key written in decimal converts back to itself |
| Views.ParseSigned | testsite/countries/views.py:18 | a leading "-" or "+" is honoured |
| Views.SelectionOf | testsite/countries/views.py:16-20 | a non-empty id selects by key (or fails to convert), otherwise a non-empty name selects ignoring case, otherwise everything is selected |
| Views.Matching | testsite/countries/views.py:16-20 | the filtered query set holds exactly the countries the selection keeps |
| Views.NoneMatching | testsite/countries/views.py:21 | the query set is empty iff no country is kept |
| Views.SeveralMatching | testsite/countries/views.py:21 | the query set has several rows iff two countries are kept |
| Views.OneMatching | testsite/countries/views.py:21 | when exactly one country is kept, the query set is that country |
| Views.Detail | testsite/countries/views.py:13-26 | ValueError iff the id does not convert; 404 `{"error": "Country not found"}` iff nothing is kept; MultipleObjectsReturned iff two are kept; the single kept country as `{"country": to_dict()}` with status 200 |
| Views.IdTakesPrecedence | testsite/countries/views.py:17-20 | with an id given, the name is ignored |
| Views.ExistingIdIsFound | testsite/countries/views.py:17-22 | every stored country is returned for its own key |
| Views.UnknownIdIsNotFound | testsite/countries/views.py:18-24 | a key outside the table, zero or negative, is a 404 |
| Views.StoredNameIsFound | testsite/countries/views.py:19-24 | a name matching a stored name ignoring case is never a 404, and returns that country when no other name matches |
| Views.CaseVariantsAreAmbiguous | testsite/countries/views.py:19-21 | two stored names that match the query ignoring case make `detail` raise MultipleObjectsReturned |

## Left out

- `Command.get_data`: the HTTP fetch and its JSON decoding. `Handle` takes the decoded rows as a parameter, and fetch errors are not modelled.
- Terminal styling of the log lines (`self.style.SUCCESS`). The log is the sequence of lines, not their text.
- Row values of the wrong JSON type (a number where a string is expected, and so on), and keys other than the six the command reads. `topLevelDomain` in a row is ignored by the code, so it is not modelled.
- `max_length` limits on the character fields: SQLite does not enforce them.
- `population` as a 32-bit `IntegerField`: the model uses unbounded integers, with no overflow and no database range error.
- The database collation. `order_by("name")` is modelled as ordering by character code, and `iexact` as ASCII case folding.
- The forms Python's `int()` also accepts for an id: surrounding whitespace, `_` separators and non-ASCII digits. Those strings count as not converting.
- Concurrency and transactions. Each statement is modelled as applied immediately, as under autocommit.
- The URL routing table (`urls.py`) and the HTTP layer. The views take the matched URL arguments directly, and an escaping exception is returned as `Raised`.
- The test module.
- `Country.to_dict`'s domain list: `self.topLevelDomain.all()` has no `ORDER BY`, so the source promises no order. The model lists the names in the order the links are stored, which is its own choice.
- Unique region and country names are not database constraints. The command's operations, `Country.to_dict` and the `detail` view require `Db.Valid`, because with duplicates `get_or_create` would raise `MultipleObjectsReturned`, and the model does not cover that state. `get_stats`, `RegionManager.to_dict` and `stats` do not require it; their contracts hold with duplicate names too (only the whole-table totals of `StatsCoverEveryCountryOnce` assume a valid store). For `detail` this means the model does not cover two stored countries with exactly the same name, which would make a name lookup raise `MultipleObjectsReturned`. Names that differ only in case are covered.
