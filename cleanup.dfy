/** The cleanup sweep: flag every stored startup whose country looks like the
    United States or whose sector looks like an investment firm, and, once
    the operator confirms, delete the flagged rows from the bottom up. */
module Cleanup {
  import opened Common
  import opened Text
  import opened Sheets

  /** Sector fragments of investment firms rather than startups. */
  const RejectedSectors: seq<string> := [
    "venture capital", "vc", "venture builder", "investment", "investor", "fund", "capital",
    "private equity", "asset management", "investment management", "investment fund",
    "venture fund", "growth capital", "seed fund", "accelerator fund", "incubator fund",
    "investment company", "investment firm", "capital management", "wealth management",
    "investment banking", "merchant banking", "development finance", "investment vehicle"
  ]

  /** Country fragments of the United States. */
  const RejectedCountries: seq<string> := ["estados unidos", "eua", "usa", "us", "united states", "silicon valley"]

  /** `value.lower().strip()`. */
  function Normalize(value: string): (n: string)
    ensures |n| <= |value|
    ensures StrippedSlice(Lower(value), n)
    ensures n == [] || (!IsSpace(n[0]) && !IsSpace(n[|n| - 1]))
    ensures forall i :: 0 <= i < |n| ==> !('A' <= n[i] <= 'Z')
  {
    LowerIdempotent(value);
    TrimKeepsNoUpper(Lower(value));
    TrimIsStrippedSlice(Lower(value));
    Trim(Lower(value))
  }

  /** Stripping a text with no upper-case ASCII letter leaves none. */
  lemma TrimKeepsNoUpper(s: string)
    requires forall i :: 0 <= i < |s| ==> !('A' <= s[i] <= 'Z')
    ensures forall i :: 0 <= i < |Trim(s)| ==> !('A' <= Trim(s)[i] <= 'Z')
  {
    forall i | 0 <= i < |Trim(s)| ensures !('A' <= Trim(s)[i] <= 'Z') {
      TrimAt(s, i);
    }
  }

  /** The rule ignores case: normalising an already lower-cased value gives
      what normalising the original gives. */
  lemma NormalizeIgnoresCase(value: string)
    ensures Normalize(Lower(value)) == Normalize(value)
  {
    LowerIdempotent(value);
  }

  /** `any(term in text for term in terms)`: plain substring containment. */
  function MatchesAny(text: string, terms: seq<string>): (b: bool)
    ensures b <==> exists k :: 0 <= k < |terms| && Contains(text, terms[k])
  {
    if terms == [] then false
    else
      var rest := MatchesAny(text, terms[1..]);
      assert rest ==> exists k :: 0 <= k < |terms| && Contains(text, terms[k]) by {
        if rest {
          var k :| 0 <= k < |terms[1..]| && Contains(text, terms[1..][k]);
          assert terms[1..][k] == terms[k + 1];
        }
      }
      Contains(text, terms[0]) || rest
  }

  /** The record's country matches a rejected country. */
  predicate IsUsa(header: seq<string>, row: seq<string>)
  {
    MatchesAny(Normalize(Field(header, row, CountryKey)), RejectedCountries)
  }

  /** The record's sector matches a rejected sector. */
  predicate IsVc(header: seq<string>, row: seq<string>)
  {
    MatchesAny(Normalize(Field(header, row, SectorKey)), RejectedSectors)
  }

  /** A record is marked for removal when either rule matches. */
  predicate Flagged(header: seq<string>, row: seq<string>)
  {
    IsUsa(header, row) || IsVc(header, row)
  }

  /** The country rule holds exactly when a rejected country fragment
      occurs in the normalised country. */
  lemma UsaRuleMeaning(header: seq<string>, row: seq<string>)
    ensures IsUsa(header, row) <==>
      exists k :: 0 <= k < |RejectedCountries| &&
        Contains(Normalize(Field(header, row, CountryKey)), RejectedCountries[k])
  {
  }

  /** The sector rule holds exactly when a rejected sector fragment occurs
      in the normalised sector. */
  lemma VcRuleMeaning(header: seq<string>, row: seq<string>)
    ensures IsVc(header, row) <==>
      exists k :: 0 <= k < |RejectedSectors| &&
        Contains(Normalize(Field(header, row, SectorKey)), RejectedSectors[k])
  {
  }

  /** A record is marked exactly when one of the two rules finds a fragment. */
  lemma FlaggedMeaning(header: seq<string>, row: seq<string>)
    ensures Flagged(header, row) <==>
      || (exists k :: 0 <= k < |RejectedCountries| &&
            Contains(Normalize(Field(header, row, CountryKey)), RejectedCountries[k]))
      || (exists k :: 0 <= k < |RejectedSectors| &&
            Contains(Normalize(Field(header, row, SectorKey)), RejectedSectors[k]))
  {
    UsaRuleMeaning(header, row);
    VcRuleMeaning(header, row);
  }

  /** The reason logged for a flagged record: the country rule takes
      precedence over the sector rule. */
  function Reason(header: seq<string>, row: seq<string>): (reason: string)
    requires Flagged(header, row)
    ensures reason == "EUA" <==> IsUsa(header, row)
    ensures reason == "Venture Capital" <==> !IsUsa(header, row)
  {
    if IsUsa(header, row) then "EUA" else "Venture Capital"
  }

  /** The substring rule is broad: "us" occurs in "austrália", so a startup
      whose country cell normalises to "austrália" (such as "Austrália" or
      " AUSTRÁLIA ") is removed as if it were from the United States. */
  lemma SubstringRuleIsBroad(header: seq<string>, row: seq<string>)
    requires Normalize(Field(header, row, CountryKey)) == "austrália"
    ensures Flagged(header, row) && Reason(header, row) == "EUA"
  {
    var text: string := "austrália";
    assert text[1..][..2] == "us";
    assert Contains(text[1..], "us");
    assert RejectedCountries[3] == "us";
    assert Contains(text, RejectedCountries[3]);
  }

  /** The flag rule for the sheet whose header row is `header`. */
  function Rule(header: seq<string>): seq<string> -> bool
  {
    (row: seq<string>) => Flagged(header, row)
  }

  // ---------------------------------------------------------------------
  // Which rows a flag rule marks, and what is left once they are gone

  /** The sheet row numbers of the data rows `f` flags, in the order the
      scan meets them. The data row at 0-based position `j` is sheet row
      `j + 2`, since row 1 is the header. */
  function FlaggedRows(f: seq<string> -> bool, data: seq<seq<string>>): (r: seq<nat>)
    ensures |r| <= |data|
  {
    if data == [] then []
    else FlaggedRows(f, data[..|data| - 1]) + (if f(data[|data| - 1]) then [|data| + 1] else [])
  }

  /** Every listed row is a flagged data row, and the list ascends. */
  lemma {:induction false} FlaggedRowsSound(f: seq<string> -> bool, data: seq<seq<string>>)
    ensures var r := FlaggedRows(f, data);
      StrictlyIncreasing(r) &&
      forall k :: 0 <= k < |r| ==> 2 <= r[k] < |data| + 2 && f(data[r[k] - 2])
  {
    if data != [] {
      var n := |data| - 1;
      var init := data[..n];
      FlaggedRowsSound(f, init);
      var before := FlaggedRows(f, init);
      var r := FlaggedRows(f, data);
      assert forall k :: 0 <= k < |before| ==> r[k] == before[k] && data[r[k] - 2] == init[r[k] - 2];
    }
  }

  /** Every flagged data row is listed. */
  lemma {:induction false} FlaggedRowsComplete(f: seq<string> -> bool, data: seq<seq<string>>)
    ensures forall j :: 0 <= j < |data| && f(data[j]) ==> j + 2 in FlaggedRows(f, data)
  {
    if data != [] {
      var n := |data| - 1;
      var init := data[..n];
      FlaggedRowsComplete(f, init);
      assert forall j :: 0 <= j < n ==> init[j] == data[j];
    }
  }

  /** Keeps a data row that `f` does not flag. */
  function Keep(f: seq<string> -> bool): seq<string> -> bool
  {
    (row: seq<string>) => !f(row)
  }

  /** The data rows `f` does not flag, in their original order. */
  function Kept(f: seq<string> -> bool, data: seq<seq<string>>): (r: seq<seq<string>>)
    ensures |r| <= |data|
    ensures forall i :: 0 <= i < |r| ==> !f(r[i])
  {
    FilterMembers(data, Keep(f));
    var r := Filter(data, Keep(f));
    assert forall i :: 0 <= i < |r| ==> r[i] in r;
    r
  }

  /** The sheet rows the sweep deletes: none when there is not even a header. */
  function SweepTargets(rows: seq<seq<string>>): (r: seq<nat>)
    ensures StrictlyIncreasing(r)
    ensures forall k :: 0 <= k < |r| ==> 2 <= r[k] <= |rows| && Flagged(rows[0], rows[r[k] - 1])
    ensures forall j :: 1 <= j < |rows| && Flagged(rows[0], rows[j]) ==> j + 1 in r
  {
    if rows == [] then []
    else
      var data := rows[1..];
      FlaggedRowsSound(Rule(rows[0]), data);
      FlaggedRowsComplete(Rule(rows[0]), data);
      assert forall j :: 0 <= j < |data| ==> data[j] == rows[j + 1];
      FlaggedRows(Rule(rows[0]), data)
  }

  /** The sheet after a confirmed sweep: the header, then the unflagged data
      rows in their original order. */
  function Swept(rows: seq<seq<string>>): (r: seq<seq<string>>)
    ensures |r| <= |rows|
    ensures rows != [] ==> r != [] && r[0] == rows[0]
  {
    if rows == [] then [] else [rows[0]] + Kept(Rule(rows[0]), rows[1..])
  }

  /** Every data row is either flagged or kept. */
  lemma {:induction false} FlaggedPlusKept(f: seq<string> -> bool, data: seq<seq<string>>)
    ensures |FlaggedRows(f, data)| + |Kept(f, data)| == |data|
  {
    if data != [] {
      var init := data[..|data| - 1];
      var last := data[|data| - 1];
      FlaggedPlusKept(f, init);
      assert data == init + [last];
      FilterAppend(init, [last], Keep(f));
      assert Filter([last], Keep(f)) == (if f(last) then [] else [last]);
    }
  }

  /** The number of rows a confirmed sweep removes is the number it flagged. */
  lemma SweptSize(rows: seq<seq<string>>)
    ensures |Swept(rows)| == |rows| - |SweepTargets(rows)|
  {
    if rows != [] {
      FlaggedPlusKept(Rule(rows[0]), rows[1..]);
    }
  }

  /** A list with no flagged row yields no row numbers. */
  lemma {:induction false} FlaggedRowsNone(f: seq<string> -> bool, data: seq<seq<string>>)
    requires forall i :: 0 <= i < |data| ==> !f(data[i])
    ensures FlaggedRows(f, data) == []
  {
    if data != [] {
      FlaggedRowsNone(f, data[..|data| - 1]);
    }
  }

  /** Nothing that `f` keeps is flagged by `f` again. */
  lemma NothingFlaggedTwice(f: seq<string> -> bool, data: seq<seq<string>>)
    ensures FlaggedRows(f, Kept(f, data)) == []
  {
    var kept := Kept(f, data);
    FilterMembers(data, Keep(f));
    assert forall i :: 0 <= i < |kept| ==> !f(kept[i]) by {
      forall i | 0 <= i < |kept| ensures !f(kept[i]) {
        assert kept[i] in kept;
      }
    }
    FlaggedRowsNone(f, kept);
  }

  /** A swept sheet keeps its header, its data rows are a subsequence of the
      original ones, and a second sweep finds nothing to remove. */
  lemma SweepIdempotent(rows: seq<seq<string>>)
    requires rows != []
    ensures Swept(rows)[0] == rows[0]
    ensures IsSubseq(Swept(rows)[1..], rows[1..])
    ensures SweepTargets(Swept(rows)) == []
  {
    var f := Rule(rows[0]);
    assert Swept(rows)[1..] == Kept(f, rows[1..]);
    FilterIsSubseq(rows[1..], Keep(f));
    NothingFlaggedTwice(f, rows[1..]);
  }

  /** Reversing a list that ends in `x` puts `x` first. */
  lemma ReverseSnoc(xs: seq<nat>, x: nat)
    ensures Reverse(xs + [x]) == [x] + Reverse(xs)
  {
    assert (xs + [x])[..|xs|] == xs;
  }

  /** The largest flagged row below data position `t` and what lies between. */
  lemma {:induction false} PeelLargest(f: seq<string> -> bool, data: seq<seq<string>>, t: nat)
    returns (d: nat)
    requires t <= |data| && FlaggedRows(f, data[..t]) != []
    ensures d < t && f(data[d])
    ensures forall j :: d < j < t ==> !f(data[j])
    ensures FlaggedRows(f, data[..t]) == FlaggedRows(f, data[..d]) + [d + 2]
  {
    var prefix := data[..t];
    assert prefix[..t - 1] == data[..t - 1];
    assert prefix[t - 1] == data[t - 1];
    if f(data[t - 1]) {
      d := t - 1;
    } else {
      d := PeelLargest(f, data, t - 1);
    }
  }

  /** Deleting a flagged row followed only by unflagged rows up to `t`. */
  lemma KeepAcross(f: seq<string> -> bool, data: seq<seq<string>>, d: nat, t: nat)
    requires d < t <= |data| && f(data[d])
    requires forall j :: d < j < t ==> !f(data[j])
    ensures Kept(f, data[d..]) == data[d + 1..t] + Kept(f, data[t..])
  {
    var p := Keep(f);
    assert data[d..] == [data[d]] + (data[d + 1..t] + data[t..]);
    FilterAppend([data[d]], data[d + 1..t] + data[t..], p);
    assert Filter([data[d]], p) == [];
    FilterAppend(data[d + 1..t], data[t..], p);
    FilterAllPass(data[d + 1..t], p);
  }

  /** Once no flagged row is left below `t`, the rows below `t` are all kept. */
  lemma KeepPrefix(f: seq<string> -> bool, data: seq<seq<string>>, t: nat)
    requires t <= |data| && FlaggedRows(f, data[..t]) == []
    ensures data[..t] + Kept(f, data[t..]) == Kept(f, data)
  {
    var p := Keep(f);
    FlaggedRowsComplete(f, data[..t]);
    assert forall j :: 0 <= j < t ==> !f(data[..t][j]);
    FilterAllPass(data[..t], p);
    assert data == data[..t] + data[t..];
    FilterAppend(data[..t], data[t..], p);
  }

  // ---------------------------------------------------------------------
  // The sweep itself

  /** One step of the deletion loop: the next row number to delete is that of
      the largest flagged row `d` below `t`, and deleting it from a sheet that
      holds the header, the first `t` data rows and what survives below them
      gives the same shape with `d` in place of `t`. */
  lemma DeleteStep(header: seq<string>, f: seq<string> -> bool, data: seq<seq<string>>, t: nat,
                   rows: seq<seq<string>>, deleted: seq<nat>, k: nat) returns (d: nat)
    requires t <= |data| && k < |deleted| && deleted[k..] == Reverse(FlaggedRows(f, data[..t]))
    requires rows == Remaining(header, f, data, t)
    ensures d < t
    ensures deleted[k] == d + 2 && deleted[k + 1..] == Reverse(FlaggedRows(f, data[..d]))
    ensures 1 <= d + 2 <= |rows|
    ensures rows[..d + 1] + rows[d + 2..] == Remaining(header, f, data, d)
  {
    assert |Reverse(FlaggedRows(f, data[..t]))| == |FlaggedRows(f, data[..t])|;
    d := PeelLargest(f, data, t);
    ReverseSnoc(FlaggedRows(f, data[..d]), d + 2);
    assert deleted[k + 1..] == deleted[k..][1..];
    DropRow(header, data, d, t, Kept(f, data[t..]));
    KeepAcross(f, data, d, t);
  }

  /** Deleting sheet row `d + 2` from the header, the first `t` data rows and
      a tail removes data row `d`. */
  lemma DropRow(header: seq<string>, data: seq<seq<string>>, d: nat, t: nat, tail: seq<seq<string>>)
    requires d < t <= |data|
    ensures var rows := [header] + data[..t] + tail;
      rows[..d + 1] + rows[d + 2..] == [header] + data[..d] + (data[d + 1..t] + tail)
  {
    var rows := [header] + data[..t] + tail;
    assert rows[..d + 1] == [header] + data[..d];
    assert rows[d + 2..] == data[d + 1..t] + tail;
  }

  /** The sheet while the deletion loop runs: the header, the data rows above
      the next one to delete still in place, and below them only the rows
      that are kept. */
  function Remaining(header: seq<string>, f: seq<string> -> bool, data: seq<seq<string>>, t: nat): seq<seq<string>>
    requires t <= |data|
  {
    [header] + data[..t] + Kept(f, data[t..])
  }

  /** Before any deletion every data row is still in place. */
  lemma RemainingAtStart(header: seq<string>, f: seq<string> -> bool, data: seq<seq<string>>)
    ensures Remaining(header, f, data, |data|) == [header] + data
  {
    assert data[..|data|] == data && data[|data|..] == [];
  }

  /** Once no flagged row is left above `t`, the sheet holds exactly the
      header and the kept rows. */
  lemma RemainingAtEnd(header: seq<string>, f: seq<string> -> bool, data: seq<seq<string>>, t: nat)
    requires t <= |data| && Reverse(FlaggedRows(f, data[..t])) == []
    ensures Remaining(header, f, data, t) == [header] + Kept(f, data)
  {
    assert |Reverse(FlaggedRows(f, data[..t]))| == |FlaggedRows(f, data[..t])|;
    KeepPrefix(f, data, t);
  }

  /** The scan: the sheet row of every data row `f` flags, top to bottom. */
  method CollectFlagged(f: seq<string> -> bool, data: seq<seq<string>>) returns (rowsToDelete: seq<nat>)
    ensures rowsToDelete == FlaggedRows(f, data)
    ensures StrictlyIncreasing(rowsToDelete)
  {
    rowsToDelete := [];
    var i := 0;
    while i < |data|
      invariant 0 <= i <= |data|
      invariant rowsToDelete == FlaggedRows(f, data[..i])
    {
      assert data[..i + 1][..i] == data[..i];
      if f(data[i]) {
        rowsToDelete := rowsToDelete + [i + 2];
      }
      i := i + 1;
    }
    assert data[..i] == data;
    FlaggedRowsSound(f, data);
  }

  /** The deletion: remove the flagged rows from the highest row number down,
      so that each deletion leaves the rows still to be deleted in place. */
  method DeleteFlagged(ws: Worksheet, f: seq<string> -> bool, rowsToDelete: seq<nat>) returns (deleted: seq<nat>)
    requires ws.rows != [] && rowsToDelete == FlaggedRows(f, ws.rows[1..])
    modifies ws
    ensures deleted == Reverse(rowsToDelete)
    ensures ws.rows == [old(ws.rows[0])] + Kept(f, old(ws.rows[1..]))
  {
    var header, data := ws.rows[0], ws.rows[1..];
    deleted := Reverse(rowsToDelete);
    ghost var t: nat := |data|;
    RemainingAtStart(header, f, data);
    assert ws.rows == [header] + data && deleted[0..] == deleted && data[..t] == data;
    var k := 0;
    while k < |deleted|
      invariant 0 <= k <= |deleted| && t <= |data|
      invariant deleted[k..] == Reverse(FlaggedRows(f, data[..t]))
      invariant ws.rows == Remaining(header, f, data, t)
    {
      ghost var d := DeleteStep(header, f, data, t, ws.rows, deleted, k);
      ws.DeleteRow(deleted[k]);
      t := d;
      k := k + 1;
    }
    RemainingAtEnd(header, f, data, t);
  }

  /** The cleanup script run against `ws`, with `answer` the operator's reply
      to the confirmation prompt (asked only when something is flagged).
      `rowsToDelete` are the flagged sheet rows found by the scan and
      `deleted` the sheet rows removed, in the order they were removed. */
  method Sweep(ws: Worksheet, answer: string) returns (rowsToDelete: seq<nat>, deleted: seq<nat>)
    modifies ws
    ensures rowsToDelete == SweepTargets(old(ws.rows))
    ensures deleted == (if rowsToDelete != [] && Lower(answer) == "s" then Reverse(rowsToDelete) else [])
    ensures StrictlyDecreasing(deleted) && multiset(deleted) <= multiset(rowsToDelete)
    ensures ws.rows == (if deleted != [] then Swept(old(ws.rows)) else old(ws.rows))
  {
    deleted := [];
    if ws.rows == [] {
      rowsToDelete := [];
      assert multiset(deleted) == multiset{};
      return;
    }
    ghost var rows := ws.rows;
    var f := Rule(ws.rows[0]);
    rowsToDelete := CollectFlagged(f, ws.rows[1..]);
    assert rowsToDelete == SweepTargets(rows);
    var confirmed := rowsToDelete != [] && Lower(answer) == "s";
    if !confirmed {
      assert multiset(deleted) == multiset{};
      return;
    }
    ReverseOfIncreasing(rowsToDelete);
    ReversePermutes(rowsToDelete);
    deleted := DeleteFlagged(ws, f, rowsToDelete);
    assert ws.rows == Swept(rows);
  }
}
