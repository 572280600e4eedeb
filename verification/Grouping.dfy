/**
 A JavaScript `Map<number, T[]>` filled in a loop: keys in first-seen order, each bucket in
 input order. The OCR passes use it to split blocks by page.
 */
module Grouping {

  function Keys<T>(s: seq<T>, key: T -> int): seq<int> {
    if s == [] then []
    else
      var before := Keys(s[..|s| - 1], key);
      var p := key(s[|s| - 1]);
      if p in before then before else before + [p]
  }

  function Bucket<T>(s: seq<T>, key: T -> int, p: int): seq<T> {
    if s == [] then []
    else
      var last := s[|s| - 1];
      Bucket(s[..|s| - 1], key, p) + (if key(last) == p then [last] else [])
  }

  function Buckets<T>(s: seq<T>, key: T -> int, keys: seq<int>): seq<T> {
    if keys == [] then [] else Bucket(s, key, keys[0]) + Buckets(s, key, keys[1..])
  }

  ghost predicate Distinct<K>(keys: seq<K>) {
    forall i, j | 0 <= i < j < |keys| :: keys[i] != keys[j]
  }

  lemma {:induction false} KeysAreFirstSeen<T>(s: seq<T>, key: T -> int)
    ensures Distinct(Keys(s, key))
    ensures forall x | x in s :: key(x) in Keys(s, key)
    ensures forall p | p in Keys(s, key) :: exists x | x in s :: key(x) == p
  {
    if s == [] {
    } else {
      var front, last := s[..|s| - 1], s[|s| - 1];
      KeysAreFirstSeen(front, key);
      assert s == front + [last];
      forall p | p in Keys(s, key) ensures exists x | x in s :: key(x) == p {
        if p in Keys(front, key) {
          var x :| x in front && key(x) == p;
          assert x in s;
        } else {
          assert last in s && key(last) == p;
        }
      }
    }
  }

  lemma {:induction false} BucketMembers<T>(s: seq<T>, key: T -> int, p: int)
    ensures forall x | x in s && key(x) == p :: x in Bucket(s, key, p)
    ensures forall x | x in Bucket(s, key, p) :: x in s && key(x) == p
  {
    if s == [] {
    } else {
      var front, last := s[..|s| - 1], s[|s| - 1];
      BucketMembers(front, key, p);
      assert s == front + [last];
    }
  }

  function One<T>(x: T, present: bool): multiset<T> {
    if present then multiset{x} else multiset{}
  }

  lemma {:induction false} BucketGrows<T>(s: seq<T>, key: T -> int, p: int)
    requires s != []
    ensures var last := s[|s| - 1];
      multiset(Bucket(s, key, p)) == multiset(Bucket(s[..|s| - 1], key, p)) + One(last, key(last) == p)
  {
  }

  lemma {:induction false} BucketsGrow<T>(s: seq<T>, key: T -> int, keys: seq<int>)
    requires s != [] && Distinct(keys)
    ensures var last := s[|s| - 1];
      multiset(Buckets(s, key, keys)) == multiset(Buckets(s[..|s| - 1], key, keys)) + One(last, key(last) in keys)
  {
    if keys != [] {
      var last := s[|s| - 1];
      var first, rest := Bucket(s[..|s| - 1], key, keys[0]), Buckets(s[..|s| - 1], key, keys[1..]);
      BucketsGrow(s, key, keys[1..]);
      BucketGrows(s, key, keys[0]);
      KeyIsFirstOrLater(key(last), keys);
      OnesAddUp(multiset(first), multiset(rest), last, key(last) == keys[0], key(last) in keys[1..]);
    }
  }

  lemma {:induction false} KeyIsFirstOrLater(p: int, keys: seq<int>)
    requires keys != [] && Distinct(keys)
    ensures p in keys <==> p == keys[0] || p in keys[1..]
    ensures !(p == keys[0] && p in keys[1..])
  {
    assert keys == [keys[0]] + keys[1..];
  }

  lemma {:induction false} OnesAddUp<T>(a: multiset<T>, b: multiset<T>, x: T, p: bool, q: bool)
    requires !(p && q)
    ensures (a + One(x, p)) + (b + One(x, q)) == (a + b) + One(x, p || q)
  {
  }

  lemma {:induction false} BucketsAppend<T>(s: seq<T>, key: T -> int, a: seq<int>, b: seq<int>)
    ensures Buckets(s, key, a + b) == Buckets(s, key, a) + Buckets(s, key, b)
  {
    if a == [] {
      assert a + b == b;
    } else {
      assert (a + b)[1..] == a[1..] + b;
      BucketsAppend(s, key, a[1..], b);
    }
  }

  /** Splitting by key and concatenating the buckets loses and duplicates nothing. */
  lemma {:induction false} BucketsPermute<T>(s: seq<T>, key: T -> int)
    ensures multiset(Buckets(s, key, Keys(s, key))) == multiset(s)
  {
    if s == [] {
    } else {
      var front, last := s[..|s| - 1], s[|s| - 1];
      BucketsPermute(front, key);
      assert s == front + [last];
      KeysAreFirstSeen(s, key);
      BucketsGrow(s, key, Keys(s, key));
      FreshKeyAddsNothing(s, key);
    }
  }

  lemma {:induction false} UnseenKeyHasNoBucket<T>(s: seq<T>, key: T -> int, p: int)
    requires p !in Keys(s, key)
    ensures Bucket(s, key, p) == []
  {
    if s == [] {
    } else {
      UnseenKeyHasNoBucket(s[..|s| - 1], key, p);
    }
  }

  lemma {:induction false} FreshKeyAddsNothing<T>(s: seq<T>, key: T -> int)
    requires s != []
    ensures Buckets(s[..|s| - 1], key, Keys(s, key)) == Buckets(s[..|s| - 1], key, Keys(s[..|s| - 1], key))
    ensures key(s[|s| - 1]) in Keys(s, key)
  {
    var front, p := s[..|s| - 1], key(s[|s| - 1]);
    var before := Keys(front, key);
    if p !in before {
      BucketsAppend(front, key, before, [p]);
      UnseenKeyHasNoBucket(front, key, p);
      assert Buckets(front, key, [p]) == Bucket(front, key, p) + Buckets(front, key, []);
    }
  }

  lemma {:induction false} Snoc<T>(s: seq<T>, x: T, key: T -> int, p: int)
    ensures Bucket(s + [x], key, p) == Bucket(s, key, p) + (if key(x) == p then [x] else [])
    ensures Keys(s + [x], key) == if key(x) in Keys(s, key) then Keys(s, key) else Keys(s, key) + [key(x)]
  {
    assert (s + [x])[..|s|] == s;
  }

  /** `keys` and `groups` are what the loop has made of `seen`. */
  ghost predicate GroupsOf<T>(keys: seq<int>, groups: map<int, seq<T>>, seen: seq<T>, key: T -> int) {
    && keys == Keys(seen, key)
    && (forall p :: p in groups <==> p in keys)
    && (forall p | p in keys :: groups[p] == Bucket(seen, key, p))
  }

  /** `x` pushed to the list of `p`, which starts empty. */
  function Grown<T>(groups: map<int, seq<T>>, p: int, x: T): map<int, seq<T>> {
    groups[p := (if p in groups then groups[p] else []) + [x]]
  }

  lemma {:induction false} GroupOneMore<T>(keys: seq<int>, groups: map<int, seq<T>>, seen: seq<T>, x: T, key: T -> int)
    requires GroupsOf(keys, groups, seen, key)
    ensures GroupsOf(if key(x) in groups then keys else keys + [key(x)], Grown(groups, key(x), x), seen + [x], key)
  {
    var p := key(x);
    Snoc(seen, x, key, p);
    if p !in groups {
      UnseenKeyHasNoBucket(seen, key, p);
    }
    forall q | q in keys || q == p ensures Grown(groups, p, x)[q] == Bucket(seen + [x], key, q) {
      Snoc(seen, x, key, q);
    }
  }

  method GroupBy<T>(s: seq<T>, key: T -> int) returns (keys: seq<int>, groups: map<int, seq<T>>)
    ensures keys == Keys(s, key)
    ensures forall p :: p in groups <==> p in keys
    ensures forall k | 0 <= k < |keys| :: keys[k] in groups && groups[keys[k]] == Bucket(s, key, keys[k])
  {
    keys, groups := [], map[];
    for i := 0 to |s|
      invariant GroupsOf(keys, groups, s[..i], key)
    {
      GroupOneMore(keys, groups, s[..i], s[i], key);
      assert s[..i + 1] == s[..i] + [s[i]];
      if key(s[i]) !in groups {
        keys := keys + [key(s[i])];
      }
      groups := Grown(groups, key(s[i]), s[i]);
    }
    assert s[..|s|] == s;
  }
}
