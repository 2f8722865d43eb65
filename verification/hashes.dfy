/**
 * The Ruby `Hash` from names to counts that the reports build, as an
 * insertion-ordered list of entries, and the descending sort the reports
 * apply to it.
 */
module Hashes {
  import opened Values

  /** One `name => count` pair. */
  datatype Entry = Entry(key: string, count: int)

  /** Entries in insertion order, as Ruby iterates them. */
  type Hash = seq<Entry>

  function Keys(h: Hash): (ks: seq<string>)
    ensures |ks| == |h|
  {
    if |h| == 0 then [] else [h[0].key] + Keys(h[1..])
  }

  lemma {:induction false} KeyAt(h: Hash, i: int)
    requires 0 <= i < |h|
    ensures Keys(h)[i] == h[i].key
  {
    if i > 0 {
      KeyAt(h[1..], i - 1);
    }
  }

  /** No key occurs twice. */
  ghost predicate NoDup(ks: seq<string>) {
    forall k :: multiset(ks)[k] <= 1
  }

  /** `h[k]`: the value stored under `k`, nil when there is none. */
  function Get(h: Hash, k: string): (r: Option<int>)
    ensures r.Some? <==> k in Keys(h)
  {
    if |h| == 0 then None
    else if h[0].key == k then Some(h[0].count)
    else Get(h[1..], k)
  }

  /** The count stored under `k`, 0 when there is none. */
  function Score(h: Hash, k: string): int {
    match Get(h, k)
    case Some(v) => v
    case None => 0
  }

  /** `h[k] = v`: an existing key keeps its place and takes the new value,
      a new key goes to the end. */
  function Put(h: Hash, k: string, v: int): (r: Hash)
    ensures Get(r, k) == Some(v)
    ensures forall k' :: k' != k ==> Get(r, k') == Get(h, k')
    ensures k in Keys(h) ==> Keys(r) == Keys(h)
    ensures k !in Keys(h) ==> Keys(r) == Keys(h) + [k]
  {
    if |h| == 0 then [Entry(k, v)]
    else if h[0].key == k then [Entry(k, v)] + h[1..]
    else [h[0]] + Put(h[1..], k, v)
  }

  /** `h[k] = v` never makes a key occur twice. */
  lemma PutKeepsNoDup(h: Hash, k: string, v: int)
    requires NoDup(Keys(h))
    ensures NoDup(Keys(Put(h, k, v)))
  {
    if k !in Keys(h) {
      assert multiset(Keys(h) + [k]) == multiset(Keys(h)) + multiset{k};
    }
  }

  /** Adding every count filed under `k`, as a walk over all the pairs of
      the hash does. */
  function SumKey(h: Hash, k: string): int {
    if |h| == 0 then 0
    else (if h[0].key == k then h[0].count else 0) + SumKey(h[1..], k)
  }

  lemma {:induction false} SumKeyIsScore(h: Hash, k: string)
    requires NoDup(Keys(h))
    ensures SumKey(h, k) == Score(h, k)
  {
    if |h| > 0 {
      assert Keys(h) == [h[0].key] + Keys(h[1..]);
      assert multiset(Keys(h)) == multiset{h[0].key} + multiset(Keys(h[1..]));
      assert NoDup(Keys(h[1..])) by {
        forall k' ensures multiset(Keys(h[1..]))[k'] <= 1 {
          assert multiset(Keys(h))[k'] <= 1;
        }
      }
      SumKeyIsScore(h[1..], k);
      if h[0].key == k {
        assert multiset(Keys(h))[k] <= 1;
        assert k !in Keys(h[1..]);
        assert SumKey(h[1..], k) == 0 by {
          SumKeyAbsent(h[1..], k);
        }
      }
    }
  }

  lemma {:induction false} SumKeyAbsent(h: Hash, k: string)
    requires k !in Keys(h)
    ensures SumKey(h, k) == 0
  {
    if |h| > 0 {
      assert Keys(h)[0] == h[0].key;
      assert Keys(h)[1..] == Keys(h[1..]);
      SumKeyAbsent(h[1..], k);
    }
  }

  /** Counts never increase along `s`. */
  predicate SortedDesc(s: seq<Entry>) {
    forall i, j :: 0 <= i < j < |s| ==> s[i].count >= s[j].count
  }

  lemma {:induction false} KeysCons(e: Entry, s: seq<Entry>)
    ensures Keys([e] + s) == [e.key] + Keys(s)
  {
    assert ([e] + s)[1..] == s;
  }

  function Insert(e: Entry, s: seq<Entry>): (r: seq<Entry>)
    requires SortedDesc(s)
    ensures SortedDesc(r)
    ensures multiset(r) == multiset(s) + multiset{e}
    ensures multiset(Keys(r)) == multiset(Keys(s)) + multiset{e.key}
  {
    if |s| == 0 then
      KeysCons(e, s);
      [e] + s
    else if e.count >= s[0].count then
      InsertAtHead(e, s);
      [e] + s
    else
      var rest := Insert(e, s[1..]);
      InsertBelowHead(e, s, rest);
      [s[0]] + rest
  }

  lemma InsertAtHead(e: Entry, s: seq<Entry>)
    requires |s| > 0 && SortedDesc(s) && e.count >= s[0].count
    ensures SortedDesc([e] + s)
    ensures multiset(Keys([e] + s)) == multiset(Keys(s)) + multiset{e.key}
  {
    KeysCons(e, s);
    forall x | x in s ensures x.count <= e.count {
      var i :| 0 <= i < |s| && s[i] == x;
      assert i == 0 || s[0].count >= s[i].count;
    }
    ConsSorted(e, s);
  }

  lemma InsertBelowHead(e: Entry, s: seq<Entry>, rest: seq<Entry>)
    requires |s| > 0 && SortedDesc(s) && e.count < s[0].count
    requires SortedDesc(rest) && multiset(rest) == multiset(s[1..]) + multiset{e}
    requires multiset(Keys(rest)) == multiset(Keys(s[1..])) + multiset{e.key}
    ensures SortedDesc([s[0]] + rest)
    ensures multiset([s[0]] + rest) == multiset(s) + multiset{e}
    ensures multiset(Keys([s[0]] + rest)) == multiset(Keys(s)) + multiset{e.key}
  {
    HeadBoundsRest(e, s, rest);
    ConsSorted(s[0], rest);
    ConsMultisets(s, rest, e);
  }

  lemma ConsMultisets(s: seq<Entry>, rest: seq<Entry>, e: Entry)
    requires |s| > 0
    requires multiset(rest) == multiset(s[1..]) + multiset{e}
    requires multiset(Keys(rest)) == multiset(Keys(s[1..])) + multiset{e.key}
    ensures multiset([s[0]] + rest) == multiset(s) + multiset{e}
    ensures multiset(Keys([s[0]] + rest)) == multiset(Keys(s)) + multiset{e.key}
  {
    ConsEntries(s, rest, e);
    ConsKeys(s, rest, e.key);
  }

  lemma ConsKeys(s: seq<Entry>, rest: seq<Entry>, x: string)
    requires |s| > 0
    requires multiset(Keys(rest)) == multiset(Keys(s[1..])) + multiset{x}
    ensures multiset(Keys([s[0]] + rest)) == multiset(Keys(s)) + multiset{x}
  {
    var a := Keys(s[1..]);
    var b := Keys(rest);
    assert Keys(s) == [s[0].key] + a;
    KeysCons(s[0], rest);
    ConsKeysMultiset(s[0].key, a, b, x);
  }

  lemma ConsEntries(s: seq<Entry>, rest: seq<Entry>, e: Entry)
    requires |s| > 0
    requires multiset(rest) == multiset(s[1..]) + multiset{e}
    ensures multiset([s[0]] + rest) == multiset(s) + multiset{e}
  {
    assert s == [s[0]] + s[1..];
    assert multiset(s) == multiset{s[0]} + multiset(s[1..]);
    assert multiset([s[0]] + rest) == multiset{s[0]} + multiset(rest);
  }

  lemma ConsKeysMultiset(k: string, a: seq<string>, b: seq<string>, x: string)
    requires multiset(b) == multiset(a) + multiset{x}
    ensures multiset([k] + b) == multiset([k] + a) + multiset{x}
  {
  }

  lemma HeadBoundsRest(e: Entry, s: seq<Entry>, rest: seq<Entry>)
    requires |s| > 0 && SortedDesc(s) && e.count < s[0].count
    requires multiset(rest) == multiset(s[1..]) + multiset{e}
    ensures forall x :: x in rest ==> x.count <= s[0].count
  {
    forall x | x in rest ensures x.count <= s[0].count {
      assert x in multiset(rest);
      if x != e {
        assert x in multiset(s[1..]);
        var k :| 0 <= k < |s[1..]| && s[1..][k] == x;
        assert s[k + 1] == x;
      }
    }
  }

  lemma ConsSorted(h: Entry, rest: seq<Entry>)
    requires SortedDesc(rest)
    requires forall x :: x in rest ==> x.count <= h.count
    ensures SortedDesc([h] + rest)
  {
    var r := [h] + rest;
    forall i, j | 0 <= i < j < |r| ensures r[i].count >= r[j].count {
      assert r[j] == rest[j - 1];
      if i > 0 {
        assert r[i] == rest[i - 1];
      }
    }
  }

  /** Ruby `h.sort { |a, b| -1 * (a[1] <=> b[1]) }`: the pairs by count,
      largest first. Ruby's sort is not stable, so the order among equal
      counts is not part of the contract. */
  function SortDesc(h: Hash): (r: Hash)
    ensures SortedDesc(r)
    ensures multiset(r) == multiset(h)
    ensures multiset(Keys(r)) == multiset(Keys(h))
  {
    if |h| == 0 then []
    else
      assert h == [h[0]] + h[1..];
      assert Keys(h) == [h[0].key] + Keys(h[1..]);
      Insert(h[0], SortDesc(h[1..]))
  }

  lemma {:induction false} ScoreOfEntry(h: Hash, e: Entry)
    requires NoDup(Keys(h))
    requires e in h
    ensures Score(h, e.key) == e.count
  {
    assert Keys(h) == [h[0].key] + Keys(h[1..]);
    if h[0] != e {
      assert multiset(Keys(h)) == multiset{h[0].key} + multiset(Keys(h[1..]));
      assert NoDup(Keys(h[1..])) by {
        forall k' ensures multiset(Keys(h[1..]))[k'] <= 1 {
          assert multiset(Keys(h))[k'] <= 1;
        }
      }
      var i :| 0 <= i < |h[1..]| && h[1..][i] == e;
      KeyAt(h[1..], i);
      assert h[0].key != e.key by {
        assert multiset(Keys(h))[e.key] <= 1;
      }
      ScoreOfEntry(h[1..], e);
    }
  }

  /** The keys of `h`, largest count first: a reordering of the keys in
      which the stored counts never increase. */
  function RankByCount(h: Hash): (ks: seq<string>)
    requires NoDup(Keys(h))
    ensures multiset(ks) == multiset(Keys(h))
    ensures NoDup(ks)
    ensures forall i, j :: 0 <= i < j < |ks| ==> Score(h, ks[i]) >= Score(h, ks[j])
  {
    var sorted := SortDesc(h);
    SortedScores(h, sorted);
    Keys(sorted)
  }

  lemma SortedScores(h: Hash, sorted: Hash)
    requires NoDup(Keys(h))
    requires multiset(sorted) == multiset(h)
    ensures forall i :: 0 <= i < |sorted| ==> Score(h, Keys(sorted)[i]) == sorted[i].count
  {
    forall i | 0 <= i < |sorted| ensures Score(h, Keys(sorted)[i]) == sorted[i].count {
      assert sorted[i] in multiset(h);
      ScoreOfEntry(h, sorted[i]);
      KeyAt(sorted, i);
    }
  }
}
