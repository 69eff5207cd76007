/** The quick-phrase dictionary `map_`, a std::multimap<std::string, std::string>,
    modelled as its in-order sequence of entries: sorted by key, entries with
    equal keys kept in insertion order. */
module PrefixDict {
  import opened Common
  import opened LexOrder

  datatype Entry = Entry(key: string, phrase: string)

  predicate Sorted(s: seq<Entry>)
  {
    forall i, j :: 0 <= i < j < |s| ==> LexLe(s[i].key, s[j].key)
  }

  /** multimap::lower_bound: the first entry whose key is not less than `p`. */
  function LowerBound(s: seq<Entry>, p: string): (i: nat)
    ensures i <= |s|
    ensures forall k :: 0 <= k < i ==> !LexLe(p, s[k].key)
    ensures i < |s| ==> LexLe(p, s[i].key)
  {
    if |s| == 0 || LexLe(p, s[0].key) then 0 else 1 + LowerBound(s[1..], p)
  }

  /** multimap::upper_bound: the first entry whose key is greater than `k`;
      `emplace` inserts there, after every entry with an equal key. */
  function UpperBound(s: seq<Entry>, k: string): (i: nat)
    ensures i <= |s|
    ensures forall j :: 0 <= j < i ==> LexLe(s[j].key, k)
    ensures i < |s| ==> !LexLe(s[i].key, k)
  {
    if |s| == 0 || !LexLe(s[0].key, k) then 0 else 1 + UpperBound(s[1..], k)
  }

  /** The dictionary after multimap::emplace(e.key, e.phrase): one entry
      more, the old ones all kept. */
  function Inserted(s: seq<Entry>, e: Entry): (r: seq<Entry>)
    ensures |r| == |s| + 1
    ensures multiset(r) == multiset(s) + multiset{e}
  {
    var u := UpperBound(s, e.key);
    assert s == s[..u] + s[u..];
    s[..u] + [e] + s[u..]
  }

  /** The dictionary after emplacing every entry of `es`, first to last. */
  function InsertAll(s: seq<Entry>, es: seq<Entry>): seq<Entry>
  {
    if es == [] then s else Inserted(InsertAll(s, es[..|es| - 1]), es[|es| - 1])
  }

  /** Reference meaning of a prefix query: the entries whose key starts with
      `p`, in dictionary order. */
  function Matches(s: seq<Entry>, p: string): (r: seq<Entry>)
    ensures |r| <= |s|
    ensures forall i :: 0 <= i < |r| ==> StartsWith(r[i].key, p)
  {
    if s == [] then []
    else (if StartsWith(s[0].key, p) then [s[0]] else []) + Matches(s[1..], p)
  }

  /** The entries whose key is exactly `k`, in dictionary order. */
  function WithKey(s: seq<Entry>, k: string): seq<Entry>
  {
    if s == [] then []
    else (if s[0].key == k then [s[0]] else []) + WithKey(s[1..], k)
  }

  /** Past the upper bound of `k`, every key of a sorted dictionary is greater than `k`. */
  lemma AfterUpperBound(s: seq<Entry>, k: string, j: nat)
    requires Sorted(s)
    requires UpperBound(s, k) <= j < |s|
    ensures !LexLe(s[j].key, k) && LexLe(k, s[j].key)
  {
    var u := UpperBound(s, k);
    var first, key := s[u].key, s[j].key;
    assert !LexLe(first, k);
    if LexLe(key, k) {
      if u < j {
        assert LexLe(first, key);
        LexLeTrans(first, key, k);
      }
      assert false;
    }
    LexLeTotal(key, k);
  }

  /** Emplacing keeps the dictionary sorted, adds exactly one entry and
      removes none. */
  lemma InsertedProps(s: seq<Entry>, e: Entry)
    requires Sorted(s)
    ensures Sorted(Inserted(s, e))
    ensures |Inserted(s, e)| == |s| + 1
    ensures multiset(Inserted(s, e)) == multiset(s) + multiset{e}
  {
    var u := UpperBound(s, e.key);
    forall j | u <= j < |s|
      ensures LexLe(e.key, s[j].key)
    {
      AfterUpperBound(s, e.key, j);
    }
    SortedSplice(s, u, e);
  }

  /** An entry put between the keys not above it and the keys not below it
      leaves a sorted dictionary sorted. */
  lemma SortedSplice(s: seq<Entry>, u: nat, e: Entry)
    requires Sorted(s) && u <= |s|
    requires forall i :: 0 <= i < u ==> LexLe(s[i].key, e.key)
    requires forall j :: u <= j < |s| ==> LexLe(e.key, s[j].key)
    ensures Sorted(s[..u] + [e] + s[u..])
  {
    var r := s[..u] + [e] + s[u..];
    assert forall i :: 0 <= i < u ==> r[i] == s[i];
    assert forall i :: u < i < |r| ==> r[i] == s[i - 1];
    forall i, j | 0 <= i < j < |r|
      ensures LexLe(r[i].key, r[j].key)
    {
      if i < u && u < j {
        LexLeTrans(s[i].key, e.key, s[j - 1].key);
      }
    }
  }

  /** Emplacing a sequence of entries keeps the dictionary sorted and makes it
      hold exactly the old entries plus the new ones. */
  lemma {:induction false} InsertAllProps(s: seq<Entry>, es: seq<Entry>)
    requires Sorted(s)
    ensures Sorted(InsertAll(s, es))
    ensures |InsertAll(s, es)| == |s| + |es|
    ensures multiset(InsertAll(s, es)) == multiset(s) + multiset(es)
  {
    if es != [] {
      var init := es[..|es| - 1];
      InsertAllProps(s, init);
      InsertedProps(InsertAll(s, init), es[|es| - 1]);
      assert es == init + [es[|es| - 1]];
    }
  }

  lemma {:induction false} MatchesAppend(a: seq<Entry>, b: seq<Entry>, p: string)
    ensures Matches(a + b, p) == Matches(a, p) + Matches(b, p)
  {
    if a != [] {
      assert (a + b)[0] == a[0] && (a + b)[1..] == a[1..] + b;
      MatchesAppend(a[1..], b, p);
    } else {
      assert a + b == b;
    }
  }

  lemma {:induction false} WithKeyAppend(a: seq<Entry>, b: seq<Entry>, k: string)
    ensures WithKey(a + b, k) == WithKey(a, k) + WithKey(b, k)
  {
    if a != [] {
      assert (a + b)[0] == a[0] && (a + b)[1..] == a[1..] + b;
      WithKeyAppend(a[1..], b, k);
    } else {
      assert a + b == b;
    }
  }

  lemma {:induction false} WithKeyNone(s: seq<Entry>, k: string)
    requires forall i :: 0 <= i < |s| ==> s[i].key != k
    ensures WithKey(s, k) == []
  {
    if s != [] { WithKeyNone(s[1..], k); }
  }

  lemma {:induction false} MatchesNone(s: seq<Entry>, p: string)
    requires forall i :: 0 <= i < |s| ==> !StartsWith(s[i].key, p)
    ensures Matches(s, p) == []
  {
    if s != [] { MatchesNone(s[1..], p); }
  }

  lemma {:induction false} MatchesAll(s: seq<Entry>, p: string)
    requires forall i :: 0 <= i < |s| ==> StartsWith(s[i].key, p)
    ensures Matches(s, p) == s
  {
    if s != [] {
      MatchesAll(s[1..], p);
      assert s == [s[0]] + s[1..];
    }
  }

  /** Soundness and completeness of the reference query: an entry is matched
      iff its key starts with `p`, as often as it occurs. */
  lemma {:induction false} MatchesCount(s: seq<Entry>, p: string, e: Entry)
    ensures multiset(Matches(s, p))[e] == if StartsWith(e.key, p) then multiset(s)[e] else 0
  {
    if s != [] {
      MatchesCount(s[1..], p, e);
      assert s == [s[0]] + s[1..];
    }
  }

  /** The empty prefix matches the whole dictionary. */
  lemma EmptyPrefixMatchesAll(s: seq<Entry>)
    ensures Matches(s, "") == s
  {
    MatchesAll(s, "");
  }

  /** The early exit of the lookup loses nothing: in a sorted dictionary the
      matches of `p` are exactly the block that starts at lower_bound(p) and
      ends at the first key that no longer starts with `p`. */
  lemma PrefixBlock(s: seq<Entry>, p: string, j: nat)
    requires Sorted(s)
    requires LowerBound(s, p) <= j <= |s|
    requires forall k :: LowerBound(s, p) <= k < j ==> StartsWith(s[k].key, p)
    requires j < |s| ==> !StartsWith(s[j].key, p)
    ensures Matches(s, p) == s[LowerBound(s, p)..j]
  {
    var lb := LowerBound(s, p);
    var before, block, after := s[..lb], s[lb..j], s[j..];
    NoMatchBeforeLowerBound(s, p);
    MatchesNone(before, p);
    MatchesAllSlice(s, lb, j, p);
    NoMatchAfterBlock(s, p, j);
    MatchesNone(after, p);
    MatchesSplit(s, lb, j, p);
    assert [] + block + [] == block;
  }

  lemma MatchesAllSlice(s: seq<Entry>, i: nat, j: nat, p: string)
    requires i <= j <= |s|
    requires forall k :: i <= k < j ==> StartsWith(s[k].key, p)
    ensures Matches(s[i..j], p) == s[i..j]
  {
    forall k | 0 <= k < j - i
      ensures StartsWith(s[i..j][k].key, p)
    {
      assert s[i..j][k] == s[i + k];
    }
    MatchesAll(s[i..j], p);
  }

  lemma MatchesSplit(s: seq<Entry>, i: nat, j: nat, p: string)
    requires i <= j <= |s|
    ensures Matches(s, p) == Matches(s[..i], p) + Matches(s[i..j], p) + Matches(s[j..], p)
  {
    assert s == s[..i] + s[i..j] + s[j..];
    MatchesAppend(s[..i] + s[i..j], s[j..], p);
    MatchesAppend(s[..i], s[i..j], p);
  }

  lemma NoMatchBeforeLowerBound(s: seq<Entry>, p: string)
    ensures forall k :: 0 <= k < |s[..LowerBound(s, p)]| ==> !StartsWith(s[..LowerBound(s, p)][k].key, p)
  {
    var lb := LowerBound(s, p);
    forall k | 0 <= k < lb
      ensures !StartsWith(s[..lb][k].key, p)
    {
      assert s[..lb][k] == s[k];
      if StartsWith(s[k].key, p) { PrefixIsLe(s[k].key, p); }
    }
  }

  lemma NoMatchAfterBlock(s: seq<Entry>, p: string, j: nat)
    requires Sorted(s)
    requires LowerBound(s, p) <= j <= |s|
    requires j < |s| ==> !StartsWith(s[j].key, p)
    ensures forall k :: 0 <= k < |s[j..]| ==> !StartsWith(s[j..][k].key, p)
  {
    var lb := LowerBound(s, p);
    forall k | 0 <= k < |s| - j
      ensures !StartsWith(s[j..][k].key, p)
    {
      assert s[j..][k] == s[j + k];
      if k > 0 && StartsWith(s[j + k].key, p) {
        if lb < j {
          assert LexLe(s[lb].key, s[j].key);
          LexLeTrans(p, s[lb].key, s[j].key);
        }
        assert LexLe(s[j].key, s[j + k].key);
        PrefixSandwich(p, s[j].key, s[j + k].key);
      }
    }
  }

  lemma WithKeySplice(a: seq<Entry>, e: Entry, b: seq<Entry>, k: string)
    ensures WithKey(a + [e] + b, k) == WithKey(a, k) + (if e.key == k then [e] else []) + WithKey(b, k)
  {
    WithKeyAppend(a + [e], b, k);
    WithKeyAppend(a, [e], k);
    assert WithKey([e], k) == (if e.key == k then [e] else []) + WithKey([], k);
  }

  lemma WithKeySnoc(es: seq<Entry>, k: string)
    requires es != []
    ensures WithKey(es, k) == WithKey(es[..|es| - 1], k) + (if es[|es| - 1].key == k then [es[|es| - 1]] else [])
  {
    assert es == es[..|es| - 1] + [es[|es| - 1]] + [];
    WithKeySplice(es[..|es| - 1], es[|es| - 1], [], k);
  }

  lemma WithKeySplit(s: seq<Entry>, u: nat, k: string)
    requires u <= |s|
    ensures WithKey(s, k) == WithKey(s[..u], k) + WithKey(s[u..], k)
  {
    assert s == s[..u] + s[u..];
    WithKeyAppend(s[..u], s[u..], k);
  }

  lemma NoKeyAfterUpperBound(s: seq<Entry>, k: string)
    requires Sorted(s)
    ensures WithKey(s[UpperBound(s, k)..], k) == []
  {
    var u := UpperBound(s, k);
    forall j | 0 <= j < |s| - u
      ensures s[u..][j].key != k
    {
      assert s[u..][j] == s[u + j];
      AfterUpperBound(s, k, u + j);
      LexLeRefl(k);
    }
    WithKeyNone(s[u..], k);
  }

  /** Equal keys keep their insertion order: emplacing `e` puts it after every
      entry already stored under `e.key`, and leaves other keys' entries as
      they were. */
  lemma InsertedKeepsOrder(s: seq<Entry>, e: Entry, k: string)
    requires Sorted(s)
    ensures WithKey(Inserted(s, e), k) == WithKey(s, k) + (if e.key == k then [e] else [])
  {
    var u := UpperBound(s, e.key);
    WithKeySplice(s[..u], e, s[u..], k);
    WithKeySplit(s, u, k);
    if e.key == k {
      NoKeyAfterUpperBound(s, k);
    }
  }

  /** Loading entries one by one stores, under every key, the old entries
      followed by the new ones in load order: nothing is overwritten. */
  lemma {:induction false} InsertAllKeepsOrder(s: seq<Entry>, es: seq<Entry>, k: string)
    requires Sorted(s)
    ensures WithKey(InsertAll(s, es), k) == WithKey(s, k) + WithKey(es, k)
  {
    if es == [] {
    } else {
      var init, last := es[..|es| - 1], es[|es| - 1];
      InsertAllKeepsOrder(s, init, k);
      InsertAllProps(s, init);
      InsertedKeepsOrder(InsertAll(s, init), last, k);
      WithKeySnoc(es, k);
    }
  }
}
