/**
 Cursor paging over an ordered listing: one page (lij-worker/node/store.js), and the two loops that
 follow cursors to the end (lij-worker/src/index.js, lij-worker/node/reconcile.js).
 */
module Paging {
  import opened Text

  predicate Wanted(name: string, prefix: string, cursor: Option<string>) {
    prefix <= name && (cursor.None? || Less(cursor.value, name))
  }

  function Matching(names: seq<string>, prefix: string, cursor: Option<string>): seq<string> {
    if names == [] then []
    else (if Wanted(names[0], prefix, cursor) then [names[0]] else []) + Matching(names[1..], prefix, cursor)
  }

  /** One page: at most `limit` names and, when more are left, the cursor to go on from. */
  datatype Page = Page(keys: seq<string>, next: Option<string>)

  function PageOf(names: seq<string>, prefix: string, cursor: Option<string>, limit: nat): Page
    requires limit > 0
  {
    var all := Matching(names, prefix, cursor);
    if |all| <= limit then Page(all, None) else Page(all[..limit], Some(all[limit - 1]))
  }

  /** The names a page is cut from: those that start with the prefix and come after the cursor, in the
      order they have. */
  lemma {:induction false} MatchingMembers(names: seq<string>, prefix: string, cursor: Option<string>)
    ensures
      forall n :: n in Matching(names, prefix, cursor) <==>
        n in names && prefix <= n && (cursor.Some? ==> Less(cursor.value, n))
    ensures Ascending(names) ==> Ascending(Matching(names, prefix, cursor))
  {
    if names != [] {
      MatchingMembers(names[1..], prefix, cursor);
      assert names == [names[0]] + names[1..];
      var rest := Matching(names[1..], prefix, cursor);
      if Ascending(names) {
        forall i | 0 <= i < |rest| ensures Less(names[0], rest[i]) {
          assert rest[i] in names[1..];
          var j :| 0 <= j < |names| - 1 && names[1..][j] == rest[i];
          assert Less(names[0], names[j + 1]);
        }
      }
    }
  }

  /******* Paging while the store changes *******/

  /** What a caller gathers who follows the cursors, one page from each snapshot of the store; `done`
      when a page said there was no more. */
  datatype Gathered = Gathered(keys: seq<string>, done: bool)

  function Follow(snapshots: seq<seq<string>>, prefix: string, cursor: Option<string>, limit: nat): Gathered
    requires limit > 0
  {
    if snapshots == [] then Gathered([], false)
    else
      var p := PageOf(snapshots[0], prefix, cursor, limit);
      if p.next.None? then Gathered(p.keys, true)
      else
        var more := Follow(snapshots[1..], prefix, p.next, limit);
        Gathered(p.keys + more.keys, more.done)
  }

  lemma PageFacts(names: seq<string>, prefix: string, cursor: Option<string>, limit: nat)
    requires limit > 0 && Ascending(names)
    ensures
      var p := PageOf(names, prefix, cursor, limit);
      && Ascending(p.keys) && |p.keys| <= limit
      && (forall n :: n in p.keys ==> n in names && Wanted(n, prefix, cursor))
      && (p.next.Some? ==> |p.keys| == limit && p.next.value == p.keys[|p.keys| - 1])
      && (forall n ::
            n in names && Wanted(n, prefix, cursor) && (p.next.None? || !Less(p.next.value, n)) ==> n in p.keys)
  {
    var all := Matching(names, prefix, cursor);
    MatchingMembers(names, prefix, cursor);
    var p := PageOf(names, prefix, cursor, limit);
    forall n | n in p.keys ensures n in all {
    }
    if |all| > limit {
      assert forall i :: limit <= i < |all| ==> Less(all[limit - 1], all[i]);
      forall n | n in all && !Less(p.next.value, n) ensures n in p.keys {
        var i :| 0 <= i < |all| && all[i] == n;
        assert p.keys[i] == n;
      }
    }
  }

  /** A run of pages names nothing twice, in order, nothing that was never there, and, when it comes
      to an end, every key that was there throughout. */
  lemma {:induction false} FollowUnderChange(snapshots: seq<seq<string>>, prefix: string, cursor: Option<string>,
          limit: nat)
    requires limit > 0 && forall s :: s in snapshots ==> Ascending(s)
    ensures
      var g := Follow(snapshots, prefix, cursor, limit);
      && Ascending(g.keys)
      && (forall n :: n in g.keys ==>
           prefix <= n && (cursor.Some? ==> Less(cursor.value, n)) && exists s :: s in snapshots && n in s)
      && (g.done ==> forall n ::
           prefix <= n && (cursor.Some? ==> Less(cursor.value, n)) && (forall s :: s in snapshots ==> n in s)
           ==> n in g.keys)
  {
    if snapshots != [] {
      var names, rest := snapshots[0], snapshots[1..];
      var p := PageOf(names, prefix, cursor, limit);
      var g := Follow(snapshots, prefix, cursor, limit);
      PageFacts(names, prefix, cursor, limit);
      assert forall s :: s in rest ==> s in snapshots;
      if p.next.Some? {
        FollowUnderChange(rest, prefix, p.next, limit);
        var more := Follow(rest, prefix, p.next, limit);
        forall n | n in more.keys ensures Wanted(n, prefix, cursor) && exists s :: s in snapshots && n in s {
          assert p.next.value in p.keys;
          if cursor.Some? { LessTransitive(cursor.value, p.next.value, n); }
        }
        AscendingConcat(p.keys, more.keys);
        forall n | Wanted(n, prefix, cursor) && (forall s :: s in snapshots ==> n in s) && g.done ensures n in g.keys {
          if Less(p.next.value, n) {
            assert n in more.keys;
          } else {
            assert n in p.keys;
          }
        }
      }
    }
  }

  lemma AscendingConcat(a: seq<string>, b: seq<string>)
    requires Ascending(a) && Ascending(b) && a != []
    requires forall n :: n in b ==> Less(a[|a| - 1], n)
    ensures Ascending(a + b)
  {
    forall i, j | 0 <= i < j < |a + b| ensures Less((a + b)[i], (a + b)[j]) {
      if i < |a| <= j {
        assert (a + b)[j] in b;
        if i < |a| - 1 { LessTransitive(a[i], a[|a| - 1], (a + b)[j]); }
      }
    }
  }

  /** Once each: an ascending sequence repeats nothing. */
  lemma AscendingOnce(s: seq<string>, i: nat, j: nat)
    requires Ascending(s) && i < |s| && j < |s| && s[i] == s[j]
    ensures i == j
  {
    LessTrichotomy(s[i], s[j]);
  }

  /******* Paging over a still store *******/

  function Min(a: int, b: int): int { if a < b then a else b }

  lemma {:induction false} MatchingSuffix(names: seq<string>, prefix: string, cursor: Option<string>, k: nat)
    requires Ascending(names)
    requires 0 < k <= |Matching(names, prefix, cursor)|
    ensures
      var all := Matching(names, prefix, cursor);
      Matching(names, prefix, Some(all[k - 1])) == all[k..]
  {
    var all := Matching(names, prefix, cursor);
    var c := all[k - 1];
    MatchingMembers(names, prefix, cursor);
    MatchingMembers(names, prefix, Some(c));
    forall i, j | 0 <= i < j < |all[k..]| ensures Less(all[k..][i], all[k..][j]) {
      assert Less(all[k + i], all[k + j]);
    }
    assert c in all;
    var members := set n | n in all[k..];
    forall n ensures n in Matching(names, prefix, Some(c)) <==> n in members {
      if n in all[k..] {
        var i :| 0 <= i < |all| - k && all[k..][i] == n;
        assert all[k + i] == n && Less(all[k - 1], all[k + i]);
        assert n in all;
      }
      if n in names && Wanted(n, prefix, Some(c)) {
        assert Wanted(n, prefix, cursor) by {
          if cursor.Some? { LessTransitive(cursor.value, c, n); }
        }
        var i :| 0 <= i < |all| && all[i] == n;
        if i < k - 1 { LessTrichotomy(all[i], c); }
        if i == k - 1 { LessTrichotomy(c, c); }
        assert all[k..][i - k] == n;
      }
    }
    ListingUnique(Matching(names, prefix, Some(c)), all[k..], members);
  }

  /** One page's names added to those gathered, up to the cap. */
  method AddPage(gathered: seq<string>, keys: seq<string>, cap: nat) returns (out: seq<string>, full: bool)
    requires |gathered| < cap
    ensures out == (gathered + keys)[..Min(cap, |gathered| + |keys|)]
    ensures full <==> |gathered| + |keys| >= cap
  {
    out, full := gathered, false;
    for k := 0 to |keys|
      invariant out == gathered + keys[..k] && |out| < cap
    {
      out := out + [keys[k]];
      if |out| >= cap {
        full := true;
        return;
      }
    }
  }

  lemma NextPage(names: seq<string>, prefix: string, cursor: Option<string>, pageSize: nat, start: nat)
    requires Ascending(names) && pageSize > 0 && start <= |Matching(names, prefix, None)|
    requires Matching(names, prefix, cursor) == Matching(names, prefix, None)[start..]
    ensures
      var all, r := Matching(names, prefix, None), PageOf(names, prefix, cursor, pageSize);
      var end := start + |r.keys|;
      && end <= |all| && all[..start] + r.keys == all[..end]
      && (r.next.None? ==> end == |all| && |r.keys| <= pageSize)
      && (r.next.Some? ==> |r.keys| == pageSize && Matching(names, prefix, r.next) == all[end..])
  {
    var r := PageOf(names, prefix, cursor, pageSize);
    if r.next.Some? {
      MatchingSuffix(names, prefix, None, start + |r.keys|);
    }
  }

  lemma PageBudget(page: nat, pageSize: nat)
    ensures (page + 1) * pageSize == page * pageSize + pageSize
    ensures page < 50 ==> page * pageSize + pageSize <= 50 * pageSize
    ensures pageSize >= 100 ==> 50 * pageSize >= 5000
  {
    if page < 50 { assert (49 - page) * pageSize >= 0; }
  }

  lemma HeadOfMatching(names: seq<string>, prefix: string, n: nat)
    ensures
      var all := Matching(names, prefix, None);
      var out := all[..Min(|all|, n)];
      && (forall k :: k in out ==> k in names && prefix <= k)
      && (|out| < n ==> forall k :: k in names && prefix <= k ==> k in out)
  {
    MatchingMembers(names, prefix, None);
    var all := Matching(names, prefix, None);
    if |all| <= n { assert all[..|all|] == all; }
    forall k | k in all[..Min(|all|, n)] ensures k in all {
    }
  }

  /** `kvListAll`: at most 50 pages and `cap` names. Pages of 100 names or more reach a cap of 5000. */
  method KvListAll(names: seq<string>, prefix: string, pageSize: nat, cap: nat) returns (out: seq<string>)
    requires Ascending(names) && pageSize > 0 && cap > 0
    ensures
      var all := Matching(names, prefix, None);
      && out == all[..Min(|all|, Min(cap, 50 * pageSize))]
      && (pageSize >= 100 && cap <= 5000 ==> out == all[..Min(|all|, cap)])
    ensures forall n :: n in out ==> n in names && prefix <= n
    ensures |out| < Min(cap, 50 * pageSize) ==> forall n :: n in names && prefix <= n ==> n in out
  {
    ghost var all := Matching(names, prefix, None);
    ghost var budget := 50 * pageSize;
    hide Matching, Less, Ascending, PageOf;
    out := [];
    var cursor := None;
    for page := 0 to 50
      invariant |out| == page * pageSize && |out| <= |all| && |out| < cap && |out| <= budget
      invariant out == all[..|out|]
      invariant Matching(names, prefix, cursor) == all[|out|..]
    {
      var r := PageOf(names, prefix, cursor, pageSize);
      NextPage(names, prefix, cursor, pageSize, |out|);
      PageBudget(page, pageSize);
      var full;
      out, full := AddPage(out, r.keys, cap);
      if full || r.next.None? {
        HeadOfMatching(names, prefix, Min(cap, 50 * pageSize));
        return;
      }
      cursor := r.next;
    }
    PageBudget(50, pageSize);
    HeadOfMatching(names, prefix, Min(cap, 50 * pageSize));
  }

  lemma {:induction false} EverythingMatches(names: seq<string>)
    ensures Matching(names, "", None) == names
  {
    if names != [] { EverythingMatches(names[1..]); }
  }

  /** The loop of the mirror's listing: pages of every name, `maxPages` at most. */
  method FollowPages(names: seq<string>, limit: nat, maxPages: nat) returns (got: seq<string>)
    requires Ascending(names) && limit > 0
    ensures got == names[..Min(|names|, maxPages * limit)]
  {
    EverythingMatches(names);
    hide Matching, PageOf, Ascending, Less;
    got := [];
    var cursor, more, page := None, true, 0;
    while more && page < maxPages
      invariant 0 <= page <= maxPages && |got| <= |names| && got == names[..|got|]
      invariant if more then |got| == page * limit else |got| == |names| <= page * limit
      invariant more ==> Matching(names, "", cursor) == names[|got|..]
      decreases maxPages - page
    {
      var r := PageOf(names, "", cursor, limit);
      NextPage(names, "", cursor, limit, |got|);
      PageBudget(page, limit);
      got := got + r.keys;
      cursor, more, page := r.next, r.next.Some?, page + 1;
    }
    assert page <= maxPages && page * limit <= maxPages * limit;
  }
}
