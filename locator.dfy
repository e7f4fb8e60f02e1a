/** Latest-file selection: `get_latest_csv` over a given directory listing. */
module Locator {
  import opened Wrappers
  import opened Errors

  /** One directory entry: its name and its modification time. */
  datatype Entry = Entry(name: string, mtime: int)

  predicate EndsWith(s: string, suffix: string) {
    |suffix| <= |s| && s[|s| - |suffix|..] == suffix
  }

  /** Whether `glob` matches `name` against the pattern `*` followed by `ext`: the name
      ends in `ext` (case-sensitively) and, like every name `*` matches, is not hidden. */
  predicate MatchesPattern(name: string, ext: string) {
    EndsWith(name, ext) && name != [] && name[0] != '.'
  }

  /** The entries of `listing` that match the pattern, in listing order. */
  function Matching(listing: seq<Entry>, ext: string): (r: seq<Entry>)
    ensures forall e :: e in r <==> e in listing && MatchesPattern(e.name, ext)
  {
    if listing == [] then []
    else
      assert listing == [listing[0]] + listing[1..];
      (if MatchesPattern(listing[0].name, ext) then [listing[0]] else []) + Matching(listing[1..], ext)
  }

  /** Filtering a listing piece by piece gives the pieces' matches in the same order. */
  lemma {:induction false} MatchingAppend(a: seq<Entry>, b: seq<Entry>, ext: string)
    ensures Matching(a + b, ext) == Matching(a, ext) + Matching(b, ext)
  {
    if a == [] {
      assert a + b == b;
    } else {
      assert (a + b)[0] == a[0] && (a + b)[1..] == a[1..] + b;
      MatchingAppend(a[1..], b, ext);
    }
  }

  /** A single entry is kept exactly when it matches; with `MatchingAppend` this fixes the
      matches as the matching entries in listing order. */
  lemma MatchingOne(e: Entry, ext: string)
    ensures Matching([e], ext) == if MatchesPattern(e.name, ext) then [e] else []
  {
  }

  /** The matches of `*.CSV` followed by those of `*.csv`. */
  function Candidates(listing: seq<Entry>): (r: seq<Entry>)
    ensures forall e :: e in r <==>
              e in listing && (MatchesPattern(e.name, ".CSV") || MatchesPattern(e.name, ".csv"))
    ensures forall i, j :: 0 <= i < j < |r| && EndsWith(r[j].name, ".CSV") ==> EndsWith(r[i].name, ".CSV")
  {
    var upper, lower := Matching(listing, ".CSV"), Matching(listing, ".csv");
    assert forall j :: |upper| <= j < |upper + lower| ==> !EndsWith((upper + lower)[j].name, ".CSV") by {
      forall j | |upper| <= j < |upper + lower|
        ensures !EndsWith((upper + lower)[j].name, ".CSV")
      {
        var n := (upper + lower)[j].name;
        assert MatchesPattern(lower[j - |upper|].name, ".csv");
        assert n[|n| - 1] == 'v';
      }
    }
    upper + lower
  }

  /** Index `k` holds the latest modification time, and no earlier entry holds it too. */
  predicate IsFirstLatest(c: seq<Entry>, k: nat) {
    k < |c| &&
    (forall j :: 0 <= j < |c| ==> c[j].mtime <= c[k].mtime) &&
    (forall j :: 0 <= j < k ==> c[j].mtime < c[k].mtime)
  }

  /** `max(c, key=mtime)`: a left-to-right scan that replaces its current best only by a
      strictly later entry, so the first of several equal maxima wins. */
  function FirstLatest(c: seq<Entry>): (k: nat)
    requires c != []
    ensures IsFirstLatest(c, k)
  {
    if |c| == 1 then 0
    else
      var k := FirstLatest(c[..|c| - 1]);
      assert forall j :: 0 <= j < |c| - 1 ==> c[..|c| - 1][j] == c[j];
      if c[|c| - 1].mtime > c[k].mtime then |c| - 1 else k
  }

  /** `get_latest_csv`: fails when nothing matches; otherwise the name of the first
      candidate, in `.CSV`-then-`.csv` order, whose modification time is the latest. */
  function LatestCsv(listing: seq<Entry>): (r: Result<string, Error>)
    ensures r.Failure? <==> Candidates(listing) == []
    ensures r.Failure? ==> r.error == NoCsvFile
    ensures r.Success? ==>
              exists k: nat :: IsFirstLatest(Candidates(listing), k) && Candidates(listing)[k].name == r.value
  {
    var c := Candidates(listing);
    if c == [] then Failure(NoCsvFile) else Success(c[FirstLatest(c)].name)
  }

  /** At most one index is the first latest one. */
  lemma FirstLatestUnique(c: seq<Entry>, k1: nat, k2: nat)
    requires IsFirstLatest(c, k1) && IsFirstLatest(c, k2)
    ensures k1 == k2
  {
    assert c[k1].mtime <= c[k2].mtime && c[k2].mtime <= c[k1].mtime;
  }

  /** A matching entry that is strictly newer than every other matching entry is chosen,
      whatever the order of the names. */
  lemma NewestIsChosen(listing: seq<Entry>, e: Entry)
    requires e in listing && (MatchesPattern(e.name, ".CSV") || MatchesPattern(e.name, ".csv"))
    requires forall f :: f in listing && f != e && (MatchesPattern(f.name, ".CSV") || MatchesPattern(f.name, ".csv")) ==>
               f.mtime < e.mtime
    ensures LatestCsv(listing) == Success(e.name)
  {
    var c := Candidates(listing);
    assert e in c;
    var k := FirstLatest(c);
    assert LatestCsv(listing) == Success(c[k].name);
    var i :| 0 <= i < |c| && c[i] == e;
    assert e.mtime <= c[k].mtime;
    assert c[k] in c;
    assert c[k] == e;
  }

  /** A first-listed `.CSV` match, or a first-listed `.csv` match when nothing after it
      matches `.CSV`, heads the candidate list. */
  lemma FirstListedHeadsCandidates(e: Entry, rest: seq<Entry>)
    requires MatchesPattern(e.name, ".CSV") ||
             (MatchesPattern(e.name, ".csv") && Matching(rest, ".CSV") == [])
    ensures Candidates([e] + rest) != [] && Candidates([e] + rest)[0] == e
  {
    MatchingAppend([e], rest, ".CSV");
    MatchingOne(e, ".CSV");
    if !MatchesPattern(e.name, ".CSV") {
      MatchingAppend([e], rest, ".csv");
      MatchingOne(e, ".csv");
      assert Matching([e] + rest, ".CSV") == [];
    }
  }

  /** Ties go to the earlier listed entry: a first-listed `.CSV` match, or a first-listed
      `.csv` match when nothing else matches `.CSV`, that is as new as every candidate is
      chosen, whatever the candidates after it. */
  lemma FirstListedWinsTie(e: Entry, rest: seq<Entry>)
    requires MatchesPattern(e.name, ".CSV") ||
             (MatchesPattern(e.name, ".csv") && Matching(rest, ".CSV") == [])
    requires forall d :: d in Candidates([e] + rest) ==> d.mtime <= e.mtime
    ensures LatestCsv([e] + rest) == Success(e.name)
  {
    var c := Candidates([e] + rest);
    FirstListedHeadsCandidates(e, rest);
    assert forall j :: 0 <= j < |c| ==> c[j] in c;
    assert IsFirstLatest(c, 0);
    FirstLatestUnique(c, 0, FirstLatest(c));
  }
}
