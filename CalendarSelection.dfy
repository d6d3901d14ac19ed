/**
  Which calendars the events route reads: the `calendarIds` query
  parameter is a comma-separated list of composite ids
  `accountId|calendarId`; they are grouped per account, and every
  merged account then reads either its selected calendars or, when
  nothing valid was selected at all, its "primary" calendar.
 */
module CalendarSelection {
  import opened Wrappers
  import opened Strings

  /** `param || ""`. */
  function RawParam(param: Option<string>): string {
    if param.Some? then param.value else ""
  }

  /** `(param || "").split(",").map((s) => s.trim()).filter(Boolean)`. */
  function CalendarIdList(param: Option<string>): (ids: seq<string>)
    ensures forall i :: 0 <= i < |ids| ==> ids[i] != [] && ',' !in ids[i]
  {
    var raw := RawParam(param);
    SplitPieces(raw, ',');
    var trimmed := TrimAll(Split(raw, ','));
    TrimAllKeepsOut(Split(raw, ','), ',');
    var ids := NonEmptyOnly(trimmed);
    assert forall i :: 0 <= i < |ids| ==> ids[i] in ids;
    ids
  }

  /** `pieces.map((s) => s.trim())`. */
  function TrimAll(pieces: seq<string>): (r: seq<string>)
    ensures |r| == |pieces|
  {
    seq(|pieces|, i requires 0 <= i < |pieces| => Trim(pieces[i]))
  }

  /** Trimming every piece adds no character. */
  lemma TrimAllKeepsOut(pieces: seq<string>, c: char)
    requires forall i :: 0 <= i < |pieces| ==> c !in pieces[i]
    ensures forall y :: y in TrimAll(pieces) ==> c !in y
  {
    forall i | 0 <= i < |pieces| ensures c !in TrimAll(pieces)[i] {
      TrimKeepsOut(pieces[i], c);
    }
  }

  /** `.filter(Boolean)` on strings: the non-empty ones, in order. */
  function NonEmptyOnly(xs: seq<string>): (ys: seq<string>)
    ensures |ys| <= |xs|
    ensures forall y :: y in ys <==> y != [] && y in xs
    ensures forall x :: multiset(ys)[x] == if x == [] then 0 else multiset(xs)[x]
  {
    if xs == [] then []
    else
      assert xs == [xs[0]] + xs[1..];
      var rest := NonEmptyOnly(xs[1..]);
      if xs[0] == [] then rest else [xs[0]] + rest
  }

  /**
    The filter keeps the order: filtering a concatenation filters each part.
    With the one-element case this determines the filter completely.
   */
  lemma {:induction false} NonEmptyOnlyAppend(a: seq<string>, b: seq<string>)
    ensures NonEmptyOnly(a + b) == NonEmptyOnly(a) + NonEmptyOnly(b)
    ensures NonEmptyOnly([]) == [] && forall x :: NonEmptyOnly([x]) == if x == [] then [] else [x]
  {
    if a == [] {
      assert a + b == b;
    } else {
      assert (a + b)[1..] == a[1..] + b;
      NonEmptyOnlyAppend(a[1..], b);
    }
    forall x ensures NonEmptyOnly([x]) == if x == [] then [] else [x] {
      assert [x][1..] == [];
    }
  }

  /** `y` is one of `pieces`, trimmed. */
  predicate IsTrimmedPiece(pieces: seq<string>, y: string) {
    exists i :: 0 <= i < |pieces| && Trim(pieces[i]) == y
  }

  /** A trimmed piece is kept exactly when it is non-empty. */
  lemma TrimmedKept(pieces: seq<string>, y: string)
    ensures y in NonEmptyOnly(TrimAll(pieces)) <==> y != [] && IsTrimmedPiece(pieces, y)
  {
    var trimmed := TrimAll(pieces);
    if y in trimmed {
      var i :| 0 <= i < |trimmed| && trimmed[i] == y;
      assert Trim(pieces[i]) == y;
    }
    if exists i :: 0 <= i < |pieces| && Trim(pieces[i]) == y {
      var i :| 0 <= i < |pieces| && Trim(pieces[i]) == y;
      assert trimmed[i] == y;
    }
  }

  /** An id is selected exactly when it is a non-blank piece of the parameter, trimmed. */
  lemma CalendarIdListMembers(param: Option<string>, y: string)
    ensures y in CalendarIdList(param) <==> y != [] && IsTrimmedPiece(Split(RawParam(param), ','), y)
  {
    var pieces := Split(RawParam(param), ',');
    assert CalendarIdList(param) == NonEmptyOnly(TrimAll(pieces));
    TrimmedKept(pieces, y);
  }

  /** An empty or missing parameter selects nothing; a single non-blank id selects just that id, trimmed. */
  lemma CalendarIdListCases(param: Option<string>)
    ensures param == None || param == Some("") ==> CalendarIdList(param) == []
    ensures param.Some? && ',' !in param.value && !AllSpace(param.value) ==>
              CalendarIdList(param) == [Trim(param.value)]
  {
    if param.Some? && ',' !in param.value {
      SplitNoSep(param.value, ',');
      TrimEmpty(param.value);
    }
  }

  /**
    `const [accId, calId] = comp.split("|"); if (!accId || !calId) continue;`:
    the first two pieces, when both exist and are non-empty.
   */
  function ParseComposite(comp: string): (r: Option<(string, string)>)
    ensures r.Some? ==> r.value.0 != [] && r.value.1 != [] && '|' !in r.value.0 && '|' !in r.value.1
  {
    var parts := Split(comp, '|');
    SplitPieces(comp, '|');
    if |parts| >= 2 && parts[0] != [] && parts[1] != [] then Some((parts[0], parts[1])) else None
  }

  /** The composite id the route builds from an account and a calendar is parsed back into them. */
  lemma ParseCompositeRoundTrip(acc: string, cal: string)
    requires acc != [] && cal != [] && '|' !in acc && '|' !in cal
    ensures ParseComposite(acc + "|" + cal) == Some((acc, cal))
  {
    SplitPair(acc, cal, '|');
  }

  /** A third `|`-separated piece is ignored. */
  lemma ParseCompositeIgnoresRest(acc: string, cal: string, rest: string)
    requires acc != [] && cal != [] && '|' !in acc && '|' !in cal
    ensures ParseComposite(acc + "|" + cal + "|" + rest) == Some((acc, cal))
  {
    var tail := "|" + rest;
    SplitSep(rest, '|');
    assert Split(tail, '|')[0] == [];
    SplitAfter(cal, tail, '|');
    var mid := cal + tail;
    assert Split(mid, '|')[0] == cal by {
      assert cal + [] == cal;
    }
    var v := "|" + mid;
    SplitSep(mid, '|');
    assert Split(v, '|')[0] == [] && Split(v, '|')[1] == cal;
    SplitAfter(acc, v, '|');
    var parts := Split(acc + v, '|');
    assert parts[0] == acc by {
      assert acc + [] == acc;
    }
    assert parts[1] == cal;
    assert acc + "|" + cal + "|" + rest == acc + v;
  }

  /** The (account, calendar) pairs of the valid composites, in order. */
  function ValidComposites(ids: seq<string>): seq<(string, string)> {
    if ids == [] then []
    else
      var last := ParseComposite(ids[|ids| - 1]);
      ValidComposites(ids[..|ids| - 1]) + (if last.Some? then [last.value] else [])
  }

  /** The calendars selected for `acc`, in the order they were listed. */
  function CalendarsOf(ids: seq<string>, acc: string): seq<string> {
    if ids == [] then []
    else
      var last := ParseComposite(ids[|ids| - 1]);
      CalendarsOf(ids[..|ids| - 1], acc) + (if last.Some? && last.value.0 == acc then [last.value.1] else [])
  }

  /** A calendar is selected for an account exactly when that pair is among the valid composites. */
  lemma {:induction false} CalendarsOfValid(ids: seq<string>, acc: string, cal: string)
    ensures cal in CalendarsOf(ids, acc) <==> (acc, cal) in ValidComposites(ids)
  {
    if ids != [] {
      CalendarsOfValid(ids[..|ids| - 1], acc, cal);
    }
  }

  /** Each account's list has one entry per valid composite naming that account. */
  lemma {:induction false} CalendarsOfCount(ids: seq<string>, acc: string)
    ensures |CalendarsOf(ids, acc)| == |Matching(ValidComposites(ids), acc)|
  {
    if ids != [] {
      CalendarsOfCount(ids[..|ids| - 1], acc);
      var last := ParseComposite(ids[|ids| - 1]);
      var extra := if last.Some? then [last.value] else [];
      MatchingAppend(ValidComposites(ids[..|ids| - 1]), extra, acc);
    }
  }

  /** The pairs naming `acc`. */
  function Matching(pairs: seq<(string, string)>, acc: string): seq<(string, string)> {
    if pairs == [] then []
    else Matching(pairs[..|pairs| - 1], acc) + (if pairs[|pairs| - 1].0 == acc then [pairs[|pairs| - 1]] else [])
  }

  lemma {:induction false} MatchingAppend(a: seq<(string, string)>, b: seq<(string, string)>, acc: string)
    requires |b| <= 1
    ensures Matching(a + b, acc) == Matching(a, acc) + Matching(b, acc)
  {
    if b != [] {
      assert (a + b)[..|a + b| - 1] == a;
      assert b[..0] == [];
    } else {
      assert a + b == a;
    }
  }

  /**
    The `idsByAccount` loop: for every valid composite, append its calendar
    to its account's list (creating the list on first use).
   */
  method GroupByAccount(ids: seq<string>) returns (byAccount: map<string, seq<string>>)
    ensures forall acc :: acc in byAccount <==> CalendarsOf(ids, acc) != []
    ensures forall acc :: acc in byAccount ==> byAccount[acc] == CalendarsOf(ids, acc)
  {
    byAccount := map[];
    for i := 0 to |ids|
      invariant forall acc :: acc in byAccount <==> CalendarsOf(ids[..i], acc) != []
      invariant forall acc :: acc in byAccount ==> byAccount[acc] == CalendarsOf(ids[..i], acc)
    {
      assert ids[..i + 1][..i] == ids[..i];
      var parsed := ParseComposite(ids[i]);
      if parsed.Some? {
        var (accId, calId) := parsed.value;
        var arr := if accId in byAccount then byAccount[accId] else [];
        byAccount := byAccount[accId := arr + [calId]];
      }
    }
    assert ids[..|ids|] == ids;
  }

  /** `idsByAccount.size > 0 ? idsByAccount.get(acc) || [] : ["primary"]`. */
  function CalendarsToFetch(byAccount: map<string, seq<string>>, accountId: string): seq<string> {
    if byAccount != map[] then (if accountId in byAccount then byAccount[accountId] else [])
    else ["primary"]
  }

  /** The (account, calendar) reads the route issues, account by account. */
  function FetchPlan(accounts: seq<string>, byAccount: map<string, seq<string>>): seq<(string, string)> {
    if accounts == [] then []
    else
      var last := accounts[|accounts| - 1];
      FetchPlan(accounts[..|accounts| - 1], byAccount)
        + seq(|CalendarsToFetch(byAccount, last)|, k requires 0 <= k < |CalendarsToFetch(byAccount, last)| =>
                (last, CalendarsToFetch(byAccount, last)[k]))
  }

  /** Without a valid selection every account reads its primary calendar once. */
  lemma {:induction false} FetchPrimaryOnly(accounts: seq<string>)
    ensures FetchPlan(accounts, map[]) == seq(|accounts|, i requires 0 <= i < |accounts| => (accounts[i], "primary"))
  {
    if accounts != [] {
      FetchPrimaryOnly(accounts[..|accounts| - 1]);
    }
  }

  /** With a selection, an account reads exactly the calendars selected for it. */
  lemma {:induction false} FetchSelected(accounts: seq<string>, byAccount: map<string, seq<string>>, acc: string, cal: string)
    requires byAccount != map[]
    ensures (acc, cal) in FetchPlan(accounts, byAccount) <==>
              acc in accounts && acc in byAccount && cal in byAccount[acc]
  {
    if accounts != [] {
      var init, last := accounts[..|accounts| - 1], accounts[|accounts| - 1];
      FetchSelected(init, byAccount, acc, cal);
      assert accounts == init + [last];
      var cals := CalendarsToFetch(byAccount, last);
      var added := seq(|cals|, k requires 0 <= k < |cals| => (last, cals[k]));
      assert FetchPlan(accounts, byAccount) == FetchPlan(init, byAccount) + added;
      assert (acc, cal) in added <==> acc == last && cal in cals by {
        if acc == last && cal in cals {
          var k :| 0 <= k < |cals| && cals[k] == cal;
          assert added[k] == (acc, cal);
        }
      }
      assert acc in accounts <==> acc in init || acc == last;
    }
  }
}
