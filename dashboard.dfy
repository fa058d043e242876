/** The dashboard's handling of the shared sheet: the records as it loads
    and cleans them, the headline tallies, the sidebar filters, the personal
    report list kept for the session, and the reading of the model's reply
    that names similar startups. */
module Dashboard {
  import opened Common
  import opened Text
  import opened Sheets

  /** Shown in place of a top country or sector when there is none. */
  const NoValue := "N/A"
  /** The sector choice that switches the sector filter off. */
  const AllSectors := "Todos"
  /** A startup founded this many years ago or later counts as recent. */
  const RecentYears := 3
  /** The most similar startups the reply parse keeps. */
  const MaxSimilar := 3

  // ---------------------------------------------------------------------
  // Loading and cleaning

  /** One cleaned record: the cells that hold a value (blank and placeholder
      cells are missing values, and have no entry), the founding year when
      the year cell reads as a number, and the age derived from it. */
  datatype Startup = Startup(cells: map<string, string>, year: Option<int>, age: Option<int>)

  /** The loaded table: its column names and its records in sheet order. */
  datatype Table = Table(columns: set<string>, records: seq<Startup>)

  /** Cells the cleaning step turns into missing values. */
  predicate IsMissing(value: string)
  {
    value == "" || value == NotFound
  }

  /** The numeric conversion of the year column: a value that is not a
      number becomes missing. */
  function YearOf(cells: map<string, string>): (y: Option<int>)
    ensures y.Some? <==> YearKey in cells && ParseDecimal(cells[YearKey]).Some?
    ensures y.Some? ==> y.value >= 0
  {
    if YearKey in cells then
      match ParseDecimal(cells[YearKey])
      case Some(n) => Some(n as int)
      case None => None
    else None
  }

  /** A year written out in decimal is read back as that year. */
  lemma YearRoundTrip(cells: map<string, string>, year: nat)
    requires YearKey in cells && cells[YearKey] == NatToString(year)
    ensures YearOf(cells) == Some(year as int)
  {
    ParseNatToString(year);
  }

  /** A data row of the sheet as the dashboard holds it after cleaning. */
  function CleanRecord(header: seq<string>, row: seq<string>, currentYear: int): (s: Startup)
    ensures forall k :: k in s.cells <==> k in header && !IsMissing(Field(header, row, k))
    ensures forall k :: k in s.cells ==> s.cells[k] == Field(header, row, k)
    ensures s.year == YearOf(s.cells)
    ensures s.age.Some? <==> s.year.Some?
    ensures s.age.Some? ==> s.year.value + s.age.value == currentYear
  {
    var cells := map k | k in header && !IsMissing(Field(header, row, k)) :: Field(header, row, k);
    var year := YearOf(cells);
    Startup(cells, year, if year.Some? then Some(currentYear - year.value) else None)
  }

  /** No cleaned record holds a blank or a placeholder. */
  lemma NoMissingValueKept(header: seq<string>, row: seq<string>, currentYear: int, key: string)
    requires key in CleanRecord(header, row, currentYear).cells
    ensures !IsMissing(CleanRecord(header, row, currentYear).cells[key])
  {
    var s := CleanRecord(header, row, currentYear);
    assert key in header && !IsMissing(Field(header, row, key));
  }

  /** Loading the sheet: `None` where the dashboard fails, which is when the
      sheet has no data row (the table then has no columns at all) or no
      year column. */
  function LoadData(sheet: seq<seq<string>>, currentYear: int): (t: Option<Table>)
    ensures t.None? <==> |sheet| <= 1 || YearKey !in sheet[0]
    ensures t.Some? ==> t.value.columns == set k | k in sheet[0]
    ensures t.Some? ==> |t.value.records| == |sheet| - 1
    ensures t.Some? ==> forall i :: 0 <= i < |t.value.records| ==>
              t.value.records[i] == CleanRecord(sheet[0], sheet[i + 1], currentYear)
  {
    if |sheet| <= 1 || YearKey !in sheet[0] then None
    else
      var header := sheet[0];
      Some(Table(set k | k in header,
                 seq(|sheet| - 1, i requires 0 <= i < |sheet| - 1 => CleanRecord(header, sheet[i + 1], currentYear))))
  }

  // ---------------------------------------------------------------------
  // Headline tallies

  /** The values a column holds, missing ones dropped, in record order. */
  function Present(records: seq<Startup>, key: string): (values: seq<string>)
    ensures |values| <= |records|
    ensures values == [] <==> forall i :: 0 <= i < |records| ==> key !in records[i].cells
    ensures forall v :: v in values ==> exists i :: 0 <= i < |records| && key in records[i].cells && records[i].cells[key] == v
  {
    if records == [] then []
    else
      var init := records[..|records| - 1];
      var last := records[|records| - 1];
      var before := Present(init, key);
      assert forall i :: 0 <= i < |init| ==> init[i] == records[i];
      before + (if key in last.cells then [last.cells[key]] else [])
  }

  /** Records whose `key` cell holds `v`. */
  function Holds(key: string, v: string): Startup -> bool
  {
    (s: Startup) => key in s.cells && s.cells[key] == v
  }

  /** Every value occurs in the column's present values exactly as often as
      there are records holding it in that column. */
  lemma {:induction false} PresentCounts(records: seq<Startup>, key: string, v: string)
    ensures multiset(Present(records, key))[v] == |Filter(records, Holds(key, v))|
  {
    if records != [] {
      var init := records[..|records| - 1];
      var last := records[|records| - 1];
      PresentCounts(init, key, v);
      assert records == init + [last];
      FilterAppend(init, [last], Holds(key, v));
      assert [last][1..] == [];
    }
  }

  /** A value and how often it occurs. */
  datatype Tally = Tally(value: string, count: nat)

  /** A candidate that occurs in `values` at least as often as every other
      candidate. */
  function BestOf(candidates: seq<string>, values: seq<string>): (best: string)
    requires candidates != []
    ensures best in candidates
    ensures forall i :: 0 <= i < |candidates| ==> multiset(values)[candidates[i]] <= multiset(values)[best]
  {
    if |candidates| == 1 then candidates[0]
    else
      var rest := BestOf(candidates[1..], values);
      assert forall i :: 1 <= i < |candidates| ==> candidates[i] == candidates[1..][i - 1];
      if multiset(values)[candidates[0]] >= multiset(values)[rest] then candidates[0] else rest
  }

  /** The first entry of `value_counts()`: a most frequent value and its
      frequency, or "N/A" with 0 when every value is missing. */
  function MostCommon(values: seq<string>): (t: Tally)
    ensures values == [] ==> t == Tally(NoValue, 0)
    ensures values != [] ==> t.value in values && t.count == multiset(values)[t.value] && t.count >= 1
    ensures forall v :: multiset(values)[v] <= t.count
  {
    if values == [] then Tally(NoValue, 0)
    else
      var best := BestOf(values, values);
      assert forall v :: v in values ==> exists i :: 0 <= i < |values| && values[i] == v;
      Tally(best, multiset(values)[best])
  }

  /** A startup whose founding year is at most `RecentYears` back. */
  predicate IsRecent(currentYear: int, s: Startup)
  {
    s.year.Some? && s.year.value >= currentYear - RecentYears
  }

  function RecentRule(currentYear: int): Startup -> bool
  {
    (s: Startup) => IsRecent(currentYear, s)
  }

  /** The headline numbers: how many startups, the top country and sector
      with their counts, and how many are recent. */
  datatype Kpis = Kpis(total: nat, topCountry: Tally, topSector: Tally, recent: nat)

  /** `calcular_kpis`: `None` where a column it reads is absent. */
  function CalcKpis(t: Table, currentYear: int): (k: Option<Kpis>)
    ensures k.None? <==> CountryKey !in t.columns || SectorKey !in t.columns || YearKey !in t.columns
    ensures k.Some? ==> k.value.total == |t.records|
    ensures k.Some? ==> k.value.topCountry == MostCommon(Present(t.records, CountryKey))
    ensures k.Some? ==> k.value.topSector == MostCommon(Present(t.records, SectorKey))
    ensures k.Some? ==> k.value.recent == |Filter(t.records, RecentRule(currentYear))| <= k.value.total
  {
    if CountryKey !in t.columns || SectorKey !in t.columns || YearKey !in t.columns then None
    else
      Some(Kpis(|t.records|,
                MostCommon(Present(t.records, CountryKey)),
                MostCommon(Present(t.records, SectorKey)),
                |Filter(t.records, RecentRule(currentYear))|))
  }

  /** The top tally of a column is "N/A" with count 0 exactly when no
      record holds a value there; otherwise its value is held by as many
      records as its count says, at least one, and no value is held by more. */
  lemma TopValueMeaning(records: seq<Startup>, key: string)
    ensures var top := MostCommon(Present(records, key));
      && ((forall i :: 0 <= i < |records| ==> key !in records[i].cells) ==> top == Tally(NoValue, 0))
      && ((exists i :: 0 <= i < |records| && key in records[i].cells) ==>
            && top.count >= 1
            && top.count == |Filter(records, Holds(key, top.value))|)
      && forall v :: |Filter(records, Holds(key, v))| <= top.count
  {
    var values := Present(records, key);
    var top := MostCommon(values);
    if exists i :: 0 <= i < |records| && key in records[i].cells {
      assert values != [];
      PresentCounts(records, key, top.value);
    }
    forall v ensures |Filter(records, Holds(key, v))| <= top.count {
      PresentCounts(records, key, v);
    }
  }

  /** The KPI tallies: the top country and the top sector each carry the
      highest number of records sharing one value of that column. */
  lemma TopTalliesMeaning(t: Table, currentYear: int, k: Kpis)
    requires CalcKpis(t, currentYear) == Some(k)
    ensures forall v :: |Filter(t.records, Holds(CountryKey, v))| <= k.topCountry.count
    ensures forall v :: |Filter(t.records, Holds(SectorKey, v))| <= k.topSector.count
    ensures (exists i :: 0 <= i < |t.records| && CountryKey in t.records[i].cells) ==>
      k.topCountry.count == |Filter(t.records, Holds(CountryKey, k.topCountry.value))| >= 1
    ensures (exists i :: 0 <= i < |t.records| && SectorKey in t.records[i].cells) ==>
      k.topSector.count == |Filter(t.records, Holds(SectorKey, k.topSector.value))| >= 1
  {
    TopValueMeaning(t.records, CountryKey);
    TopValueMeaning(t.records, SectorKey);
  }

  /** The recent count covers exactly the startups with a founding year at
      most three years back: one founded that year counts, one founded a
      year earlier and one without a year do not. */
  lemma RecentBoundary(currentYear: int, s: Startup, older: Startup, unknown: Startup)
    requires s.year == Some(currentYear - 3) && older.year == Some(currentYear - 4) && unknown.year.None?
    ensures Filter([s, older, unknown], RecentRule(currentYear)) == [s]
  {
    var rule := RecentRule(currentYear);
    assert rule(s) && !rule(older) && !rule(unknown);
    assert [s, older, unknown][1..] == [older, unknown];
    assert [older, unknown][1..] == [unknown];
    assert Filter([unknown], rule) == [] by {
      assert [unknown][1..] == [];
    }
    assert Filter([older, unknown], rule) == [];
  }

  // ---------------------------------------------------------------------
  // Sidebar filters

  /** The sidebar choices: selected countries (none selected means no
      country filter), an inclusive year range, and a sector or "Todos". */
  datatype Selection = Selection(countries: seq<string>, fromYear: int, toYear: int, sector: string)

  function ByCountry(sel: Selection): Startup -> bool
  {
    (s: Startup) => CountryKey in s.cells && s.cells[CountryKey] in sel.countries
  }

  function ByYear(sel: Selection): Startup -> bool
  {
    (s: Startup) => s.year.Some? && sel.fromYear <= s.year.value <= sel.toYear
  }

  function BySector(sel: Selection): Startup -> bool
  {
    (s: Startup) => SectorKey in s.cells && s.cells[SectorKey] == sel.sector
  }

  /** The filters one after the other, as the sidebar applies them. */
  function ApplyFilters(records: seq<Startup>, sel: Selection): (r: seq<Startup>)
    ensures |r| <= |records|
    ensures forall s :: s in r ==> s in records && Selected(sel, s)
  {
    FilterMembers(records, ByCountry(sel));
    var byCountry := if sel.countries != [] then Filter(records, ByCountry(sel)) else records;
    FilterMembers(byCountry, ByYear(sel));
    var byYear := Filter(byCountry, ByYear(sel));
    FilterMembers(byYear, BySector(sel));
    if sel.sector != AllSectors then Filter(byYear, BySector(sel)) else byYear
  }

  /** The selection as a single condition on a record. */
  predicate Selected(sel: Selection, s: Startup)
  {
    && (sel.countries == [] || (CountryKey in s.cells && s.cells[CountryKey] in sel.countries))
    && s.year.Some? && sel.fromYear <= s.year.value <= sel.toYear
    && (sel.sector == AllSectors || (SectorKey in s.cells && s.cells[SectorKey] == sel.sector))
  }

  function SelectedRule(sel: Selection): Startup -> bool
  {
    (s: Startup) => Selected(sel, s)
  }

  /** The three filters in sequence are one filter by `Selected`. */
  lemma FiltersAreOneFilter(records: seq<Startup>, sel: Selection)
    ensures ApplyFilters(records, sel) == Filter(records, SelectedRule(sel))
  {
    var c, y, z := ByCountry(sel), ByYear(sel), BySector(sel);
    var all := SelectedRule(sel);
    var cy := (s: Startup) => c(s) && y(s);
    var yz := (s: Startup) => y(s) && z(s);
    var cyz := (s: Startup) => cy(s) && z(s);
    match (sel.countries != [], sel.sector != AllSectors)
    case (true, true) =>
      FilterCompose(records, c, y, cy);
      FilterCompose(records, cy, z, cyz);
      FilterExt(records, cyz, all);
    case (true, false) =>
      FilterCompose(records, c, y, cy);
      FilterExt(records, cy, all);
    case (false, true) =>
      FilterCompose(records, y, z, yz);
      FilterExt(records, yz, all);
    case (false, false) =>
      FilterExt(records, y, all);
  }

  /** The filtered view keeps the records' order, and holds exactly the
      records that meet every active filter: a country among the selected
      ones, a year in the range, and the chosen sector. */
  lemma FilterSpec(records: seq<Startup>, sel: Selection)
    ensures IsSubseq(ApplyFilters(records, sel), records)
    ensures forall s :: s in ApplyFilters(records, sel) <==> s in records && Selected(sel, s)
  {
    FiltersAreOneFilter(records, sel);
    FilterIsSubseq(records, SelectedRule(sel));
    FilterMembers(records, SelectedRule(sel));
  }

  // ---------------------------------------------------------------------
  // The personal report

  /** The startup's name, `None` when its name cell is missing. */
  function NameOf(s: Startup): Option<string>
  {
    if NameKey in s.cells then Some(s.cells[NameKey]) else None
  }

  /** The names of the report's entries, in order. */
  function Names(entries: seq<Startup>): (names: seq<Option<string>>)
    ensures |names| == |entries|
    ensures forall i :: 0 <= i < |entries| ==> names[i] == NameOf(entries[i])
  {
    seq(|entries|, i requires 0 <= i < |entries| => NameOf(entries[i]))
  }

  /** No two entries carry the same name. */
  predicate UniqueNames(entries: seq<Startup>)
  {
    forall i, j :: 0 <= i < j < |entries| ==> NameOf(entries[i]) != NameOf(entries[j])
  }

  /** The "add" button: the startup goes at the end unless an entry with
      its name is already there. */
  function AddIfAbsent(entries: seq<Startup>, s: Startup): (r: seq<Startup>)
    ensures NameOf(s) in Names(r)
    ensures r == entries || r == entries + [s]
    ensures r == entries <==> NameOf(s) in Names(entries)
    ensures UniqueNames(entries) ==> UniqueNames(r)
  {
    if NameOf(s) in Names(entries) then entries
    else
      assert Names(entries + [s])[|entries|] == NameOf(s);
      entries + [s]
  }

  /** Where `s` first occurs. */
  function FirstIndex(entries: seq<Startup>, s: Startup): (i: nat)
    requires s in entries
    ensures i < |entries| && entries[i] == s
    ensures forall j :: 0 <= j < i ==> entries[j] != s
  {
    if entries[0] == s then 0 else 1 + FirstIndex(entries[1..], s)
  }

  /** `list.remove(s)`: the first entry equal to `s` goes. */
  function RemoveFirst(entries: seq<Startup>, s: Startup): (r: seq<Startup>)
    requires s in entries
    ensures RemovedAt(r, entries, FirstIndex(entries, s))
  {
    var i := FirstIndex(entries, s);
    entries[..i] + entries[i + 1..]
  }

  /** Removing takes out one occurrence of `s` and nothing else. */
  lemma RemoveFirstCounts(entries: seq<Startup>, s: Startup)
    requires s in entries
    ensures |RemoveFirst(entries, s)| == |entries| - 1
    ensures multiset(RemoveFirst(entries, s)) == multiset(entries) - multiset{s}
  {
    var i := FirstIndex(entries, s);
    assert entries == entries[..i] + [s] + entries[i + 1..];
  }

  /** `r` is `entries` with the entry at `i` taken out. */
  predicate RemovedAt(r: seq<Startup>, entries: seq<Startup>, i: nat)
  {
    i < |entries| && |r| == |entries| - 1
    && (forall j :: 0 <= j < i ==> r[j] == entries[j])
    && (forall j :: i <= j < |r| ==> r[j] == entries[j + 1])
  }

  /** Removing an entry keeps the names unique. */
  lemma RemoveKeepsUnique(entries: seq<Startup>, s: Startup)
    requires s in entries && UniqueNames(entries)
    ensures UniqueNames(RemoveFirst(entries, s))
  {
    var r := RemoveFirst(entries, s);
    var i := FirstIndex(entries, s);
    forall a, b | 0 <= a < b < |r| ensures NameOf(r[a]) != NameOf(r[b]) {
      var a' := if a < i then a else a + 1;
      var b' := if b < i then b else b + 1;
      assert r[a] == entries[a'] && r[b] == entries[b'];
    }
  }

  /** The report list kept for the session. */
  class Report {
    var entries: seq<Startup>

    predicate Valid()
      reads this
    {
      UniqueNames(entries)
    }

    /** The session starts with an empty report. */
    constructor ()
      ensures entries == [] && Valid()
    {
      entries := [];
    }

    /** The "add" button; `added` is whether the startup went in. */
    method Add(s: Startup) returns (added: bool)
      requires Valid()
      modifies this
      ensures added <==> NameOf(s) !in Names(old(entries))
      ensures entries == AddIfAbsent(old(entries), s)
      ensures Valid()
    {
      if NameOf(s) !in Names(entries) {
        entries := entries + [s];
        added := true;
      } else {
        added := false;
      }
    }

    /** The remove button next to an entry of the report. */
    method Remove(s: Startup)
      requires Valid() && s in entries
      modifies this
      ensures entries == RemoveFirst(old(entries), s)
      ensures Valid()
    {
      RemoveKeepsUnique(entries, s);
      entries := RemoveFirst(entries, s);
    }

    /** The "clear report" button. */
    method Clear()
      modifies this
      ensures entries == [] && Valid()
    {
      entries := [];
    }
  }

  // ---------------------------------------------------------------------
  // The similar-startups reply

  /** Every piece stripped of surrounding whitespace. */
  function TrimAll(pieces: seq<string>): (r: seq<string>)
    ensures |r| == |pieces|
    ensures forall k :: 0 <= k < |pieces| ==> r[k] == Trim(pieces[k])
  {
    seq(|pieces|, k requires 0 <= k < |pieces| => Trim(pieces[k]))
  }

  /** The names read from the model's reply: the comma-separated pieces,
      stripped, at most the first three. */
  function ParseSimilar(reply: string): (names: seq<string>)
    ensures |names| == if |Split(reply, ',')| < MaxSimilar then |Split(reply, ',')| else MaxSimilar
    ensures forall k :: 0 <= k < |names| ==> names[k] == Trim(Split(reply, ',')[k])
  {
    var all := TrimAll(Split(reply, ','));
    if |all| > MaxSimilar then all[..MaxSimilar] else all
  }

  /** Every parsed name is stripped, has no comma, and there is at least one. */
  lemma SimilarNamesClean(reply: string)
    ensures 1 <= |ParseSimilar(reply)| <= MaxSimilar
    ensures forall k :: 0 <= k < |ParseSimilar(reply)| ==>
              Trim(ParseSimilar(reply)[k]) == ParseSimilar(reply)[k] && ',' !in ParseSimilar(reply)[k]
  {
    var names := ParseSimilar(reply);
    forall k | 0 <= k < |names|
      ensures Trim(names[k]) == names[k] && ',' !in names[k]
    {
      var piece := Split(reply, ',')[k];
      TrimIdempotent(piece);
      if ',' in names[k] {
        TrimChars(piece, ',');
      }
    }
  }

  /** The pieces of `name1, name2, name3`: the first name, then the others
      each behind a space. */
  function Spaced(names: seq<string>): (pieces: seq<string>)
    requires names != []
    ensures |pieces| == |names| && pieces[0] == names[0]
    ensures forall k :: 1 <= k < |names| ==> pieces[k] == [' '] + names[k]
  {
    [names[0]] + seq(|names| - 1, k requires 0 <= k < |names| - 1 => " " + names[k + 1])
  }

  /** Prefixing the first piece prefixes the whole join. */
  lemma JoinPrefixHead(parts: seq<string>, pre: string, sep: string)
    requires parts != []
    ensures Join([pre + parts[0]] + parts[1..], sep) == pre + Join(parts, sep)
  {
    var moved := [pre + parts[0]] + parts[1..];
    assert moved[0] == pre + parts[0] && moved[1..] == parts[1..];
    if |parts| > 1 {
      assert Join(moved, sep) == (pre + parts[0]) + sep + Join(parts[1..], sep);
      assert Join(parts, sep) == parts[0] + sep + Join(parts[1..], sep);
    }
  }

  lemma {:induction false} JoinSpaced(names: seq<string>)
    requires names != []
    ensures Join(names, ", ") == Join(Spaced(names), [','])
  {
    if |names| > 1 {
      var rest := names[1..];
      JoinSpaced(rest);
      var sp := Spaced(names);
      var spRest := Spaced(rest);
      assert sp[1..] == [" " + spRest[0]] + spRest[1..];
      JoinPrefixHead(spRest, " ", [',']);
      assert Join(sp[1..], [',']) == " " + Join(rest, ", ");
      assert Join(sp, [',']) == names[0] + [','] + (" " + Join(rest, ", "));
      assert Join(names, ", ") == names[0] + ", " + Join(rest, ", ");
      assert [','] + " " == ", ";
    }
  }

  /** A leading space is stripped away from an already stripped name. */
  lemma TrimAfterSpace(name: string)
    requires Trim(name) == name
    ensures Trim([' '] + name) == name
  {
    var padded := [' '] + name;
    StrippedHasNoRuns(name);
    assert padded[1..] == name;
    assert LeadingSpace(padded) == 1;
    assert name[..|name|] == name;
  }

  /** The spaced pieces of comma-free names are comma-free. */
  lemma SpacedCommaFree(names: seq<string>)
    requires names != []
    requires forall k :: 0 <= k < |names| ==> ',' !in names[k]
    ensures forall k :: 0 <= k < |Spaced(names)| ==> ',' !in Spaced(names)[k]
  {
    var sp := Spaced(names);
    forall k | 0 <= k < |sp| ensures ',' !in sp[k] {
      if k > 0 {
        assert sp[k] == [' '] + names[k];
      }
    }
  }

  /** Stripping the spaced pieces of stripped names gives the names back. */
  lemma TrimSpaced(names: seq<string>)
    requires names != []
    requires forall k :: 0 <= k < |names| ==> Trim(names[k]) == names[k]
    ensures TrimAll(Spaced(names)) == names
  {
    var sp := Spaced(names);
    forall k | 0 <= k < |names| ensures Trim(sp[k]) == names[k] {
      if k > 0 {
        TrimAfterSpace(names[k]);
      }
    }
  }

  /** A reply that lists up to three stripped, comma-free names as
      `a, b, c` is read back as exactly those names. */
  lemma SimilarRoundTrip(names: seq<string>)
    requires 1 <= |names| <= MaxSimilar
    requires forall k :: 0 <= k < |names| ==> Trim(names[k]) == names[k] && ',' !in names[k]
    ensures ParseSimilar(Join(names, ", ")) == names
  {
    var sp := Spaced(names);
    JoinSpaced(names);
    SpacedCommaFree(names);
    SplitJoin(sp, ',');
    TrimSpaced(names);
  }
}
