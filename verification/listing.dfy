/**
 * The school list the listing page keeps: the record it fetches, the reversal of each
 * fetched batch, the first-occurrence-wins deduplication by id, and deletion by id.
 */
module Listing {

  /** One row of the `schools` table as the listing endpoint returns it. */
  datatype School = School(id: int, name: string, address: string, city: string, image: string)

  /** A batch shorter than this marks the end of the data. */
  const PAGE_SIZE: nat := 10

  /** The ids that occur in a list of schools. */
  function Ids(s: seq<School>): set<int>
  {
    set x | x in s :: x.id
  }

  /** No two positions of the list hold the same id. */
  ghost predicate UniqueIds(s: seq<School>)
  {
    forall i, j :: 0 <= i < j < |s| ==> s[i].id != s[j].id
  }

  /** `a` is an order-preserving subsequence of `b`. */
  ghost predicate SubseqOf<T>(a: seq<T>, b: seq<T>)
    decreases |b|
  {
    if a == [] then true
    else if b == [] then false
    else (a[0] == b[0] && SubseqOf(a[1..], b[1..])) || SubseqOf(a, b[1..])
  }

  // ---------------------------------------------------------------------------
  // Facts about ids and subsequences
  // ---------------------------------------------------------------------------

  lemma IdsMember(s: seq<School>, id: int)
    ensures id in Ids(s) <==> exists k :: 0 <= k < |s| && s[k].id == id
  {
    if id in Ids(s) {
      var x :| x in s && x.id == id;
      var k :| 0 <= k < |s| && s[k] == x;
    }
  }

  lemma IdsConcat(a: seq<School>, b: seq<School>)
    ensures Ids(a + b) == Ids(a) + Ids(b)
  {
    forall id | id in Ids(a + b) ensures id in Ids(a) + Ids(b) {
      var x :| x in a + b && x.id == id;
    }
    forall id | id in Ids(a) + Ids(b) ensures id in Ids(a + b) {
      if id in Ids(a) {
        var x :| x in a && x.id == id;
        assert x in a + b;
      } else {
        var x :| x in b && x.id == id;
        assert x in a + b;
      }
    }
  }

  lemma IdsSnoc(s: seq<School>, y: School)
    ensures Ids(s + [y]) == Ids(s) + {y.id}
  {
    IdsConcat(s, [y]);
    assert Ids([y]) == {y.id};
  }

  lemma AddPresent(a: set<int>, v: int)
    requires v in a
    ensures a + {v} == a
  {
  }

  lemma {:induction false} SubseqMembers<T>(a: seq<T>, b: seq<T>)
    requires SubseqOf(a, b)
    ensures forall x :: x in a ==> x in b
    decreases |b|
  {
    if a != [] {
      if a[0] == b[0] && SubseqOf(a[1..], b[1..]) {
        SubseqMembers(a[1..], b[1..]);
        assert forall x :: x in a ==> x == a[0] || x in a[1..];
      } else {
        SubseqMembers(a, b[1..]);
      }
    }
  }

  /** Appending one element to the right keeps a subsequence, with or without the element. */
  lemma {:induction false} SubseqSnoc<T>(a: seq<T>, b: seq<T>, x: T)
    requires SubseqOf(a, b)
    ensures SubseqOf(a, b + [x])
    ensures SubseqOf(a + [x], b + [x])
    decreases |b|
  {
    if b == [] {
      assert a == [];
      assert [x][1..] == [];
    } else {
      assert (b + [x])[0] == b[0];
      assert (b + [x])[1..] == b[1..] + [x];
      if a == [] {
        assert a + [x] == [x];
        SubseqSnoc(a, b[1..], x);
        assert SubseqOf([x], b[1..] + [x]);
      } else {
        assert (a + [x])[0] == a[0];
        assert (a + [x])[1..] == a[1..] + [x];
        if a[0] == b[0] && SubseqOf(a[1..], b[1..]) {
          SubseqSnoc(a[1..], b[1..], x);
        } else {
          SubseqSnoc(a, b[1..], x);
        }
      }
    }
  }

  lemma {:induction false} SubseqDropHead<T>(a: seq<T>, b: seq<T>)
    requires a != [] && SubseqOf(a, b)
    ensures SubseqOf(a[1..], b)
    decreases |b|
  {
    if a[1..] != [] {
      if a[0] == b[0] && SubseqOf(a[1..], b[1..]) {
      } else {
        SubseqDropHead(a, b[1..]);
      }
    }
  }

  /** A common prefix can be cancelled from both sides of a subsequence. */
  lemma {:induction false} SubseqCancel<T>(p: seq<T>, a: seq<T>, b: seq<T>)
    requires SubseqOf(p + a, p + b)
    ensures SubseqOf(a, b)
    decreases |p|
  {
    if p == [] {
      assert p + a == a && p + b == b;
    } else {
      assert (p + a)[0] == p[0] && (p + b)[0] == p[0];
      assert (p + a)[1..] == p[1..] + a;
      assert (p + b)[1..] == p[1..] + b;
      if SubseqOf(p[1..] + a, p[1..] + b) {
      } else {
        SubseqDropHead(p + a, p[1..] + b);
      }
      SubseqCancel(p[1..], a, b);
    }
  }

  // ---------------------------------------------------------------------------
  // Reversal of a fetched batch (`res.data.slice().reverse()`)
  // ---------------------------------------------------------------------------

  /** The batch in the opposite order. */
  function Reverse(s: seq<School>): (r: seq<School>)
    ensures |r| == |s|
    ensures forall k :: 0 <= k < |s| ==> r[k] == s[|s| - 1 - k]
  {
    if s == [] then [] else Reverse(s[1..]) + [s[0]]
  }

  /** Reversal neither adds nor loses a record, so it keeps the set of ids. */
  lemma ReverseIds(s: seq<School>)
    ensures Ids(Reverse(s)) == Ids(s)
  {
    var r := Reverse(s);
    forall id | id in Ids(r) ensures id in Ids(s) {
      var x :| x in r && x.id == id;
      var k :| 0 <= k < |r| && r[k] == x;
      assert s[|s| - 1 - k] == x;
    }
    forall id | id in Ids(s) ensures id in Ids(r) {
      var x :| x in s && x.id == id;
      var k :| 0 <= k < |s| && s[k] == x;
      assert r[|s| - 1 - k] == x;
    }
  }

  // ---------------------------------------------------------------------------
  // Deduplication by id (`self.filter((x, i) => i === self.findIndex(t => t.id === x.id))`)
  // ---------------------------------------------------------------------------

  /** `findIndex(t => t.id === id)`: the first position holding `id`, or -1 when none does. */
  function FindIndex(s: seq<School>, id: int): (r: int)
    ensures -1 <= r < |s|
    ensures r >= 0 ==> s[r].id == id
    ensures forall k :: 0 <= k < |s| && (r < 0 || k < r) ==> s[k].id != id
  {
    if s == [] then -1
    else if s[0].id == id then 0
    else
      var r := FindIndex(s[1..], id);
      if r < 0 then -1 else r + 1
  }

  /** The `filter` over the first `n` positions of `self`: a position survives when it is the
      first position of `self` holding its id. */
  function KeepFirst(self: seq<School>, n: nat): seq<School>
    requires n <= |self|
  {
    if n == 0 then []
    else KeepFirst(self, n - 1) + (if FindIndex(self, self[n - 1].id) == n - 1 then [self[n - 1]] else [])
  }

  /** The last of the first `n + 1` positions is the first one holding its id exactly when
      its id does not occur before it. */
  lemma FirstPosition(self: seq<School>, n: nat)
    requires n < |self|
    ensures FindIndex(self, self[n].id) == n <==> self[n].id !in Ids(self[..n])
  {
    var fi := FindIndex(self, self[n].id);
    IdsMember(self[..n], self[n].id);
    if fi != n {
      assert 0 <= fi < n;
      assert self[..n][fi].id == self[n].id;
    } else {
      forall k | 0 <= k < n ensures self[..n][k].id != self[n].id {
        assert self[..n][k] == self[k];
      }
    }
  }

  lemma {:induction false} KeepFirstSubseq(self: seq<School>, n: nat)
    requires n <= |self|
    ensures SubseqOf(KeepFirst(self, n), self[..n])
  {
    if n > 0 {
      KeepFirstSubseq(self, n - 1);
      assert self[..n] == self[..n - 1] + [self[n - 1]];
      SubseqSnoc(KeepFirst(self, n - 1), self[..n - 1], self[n - 1]);
      if FindIndex(self, self[n - 1].id) == n - 1 {
        assert KeepFirst(self, n) == KeepFirst(self, n - 1) + [self[n - 1]];
      } else {
        assert KeepFirst(self, n) == KeepFirst(self, n - 1);
      }
    }
  }

  /** Appending a record whose id is new keeps ids unique. */
  lemma UniqueSnoc(prev: seq<School>, y: School)
    requires UniqueIds(prev) && y.id !in Ids(prev)
    ensures UniqueIds(prev + [y])
  {
    forall i, j | 0 <= i < j < |prev + [y]| ensures (prev + [y])[i].id != (prev + [y])[j].id {
      if j == |prev| {
        IdsMember(prev, prev[i].id);
      }
    }
  }

  lemma KeepFirstIds(self: seq<School>, n: nat)
    requires n <= |self|
    ensures Ids(KeepFirst(self, n)) == Ids(self[..n])
    ensures UniqueIds(KeepFirst(self, n))
  {
    KeepFirstIdSet(self, n);
    KeepFirstUnique(self, n);
  }

  lemma {:induction false} KeepFirstIdSet(self: seq<School>, n: nat)
    requires n <= |self|
    ensures Ids(KeepFirst(self, n)) == Ids(self[..n])
  {
    if n > 0 {
      KeepFirstIdSet(self, n - 1);
      var prev := KeepFirst(self, n - 1);
      var y := self[n - 1];
      assert self[..n] == self[..n - 1] + [y];
      if FindIndex(self, y.id) == n - 1 {
        assert KeepFirst(self, n) == prev + [y];
        IdSetStep(prev, self[..n - 1], y, true);
      } else {
        assert KeepFirst(self, n) == prev;
        FirstPosition(self, n - 1);
        IdSetStep(prev, self[..n - 1], y, false);
      }
    }
  }

  /** One step of the filter keeps the id sets equal: the appended record is either kept or
      carries an id already present. */
  lemma IdSetStep(kept: seq<School>, seen: seq<School>, y: School, keep: bool)
    requires Ids(kept) == Ids(seen) && (!keep ==> y.id in Ids(seen))
    ensures Ids(if keep then kept + [y] else kept) == Ids(seen + [y])
  {
    IdsSnoc(seen, y);
    if keep {
      IdsSnoc(kept, y);
    } else {
      AddPresent(Ids(seen), y.id);
    }
  }

  lemma {:induction false} KeepFirstUnique(self: seq<School>, n: nat)
    requires n <= |self|
    ensures UniqueIds(KeepFirst(self, n))
  {
    if n > 0 {
      KeepFirstUnique(self, n - 1);
      var prev := KeepFirst(self, n - 1);
      var y := self[n - 1];
      if FindIndex(self, y.id) == n - 1 {
        assert KeepFirst(self, n) == prev + [y];
        KeepFirstIdSet(self, n - 1);
        FirstPosition(self, n - 1);
        UniqueSnoc(prev, y);
      } else {
        assert KeepFirst(self, n) == prev;
      }
    }
  }

  lemma {:induction false} KeepFirstWins(self: seq<School>, n: nat)
    requires n <= |self|
    ensures forall x :: x in KeepFirst(self, n) ==>
              0 <= FindIndex(self, x.id) < n && self[FindIndex(self, x.id)] == x
  {
    if n > 0 {
      KeepFirstWins(self, n - 1);
    }
  }

  lemma KeepFirstBelow(self: seq<School>, n: nat)
    requires n <= |self|
    ensures forall x :: x in KeepFirst(self, n) ==> FindIndex(self, x.id) < n
  {
    KeepFirstWins(self, n);
  }

  /** The records of `r` come in the order of their ids' first positions in `s`. */
  ghost predicate InFirstOrder(s: seq<School>, r: seq<School>)
  {
    forall i, j :: 0 <= i < j < |r| ==> FindIndex(s, r[i].id) < FindIndex(s, r[j].id)
  }

  lemma FirstOrderSnoc(s: seq<School>, prev: seq<School>, y: School, m: int)
    requires InFirstOrder(s, prev) && FindIndex(s, y.id) == m
    requires forall x :: x in prev ==> FindIndex(s, x.id) < m
    ensures InFirstOrder(s, prev + [y])
  {
    var r := prev + [y];
    forall i, j | 0 <= i < j < |r| ensures FindIndex(s, r[i].id) < FindIndex(s, r[j].id) {
      assert r[i] == prev[i];
      if j < |prev| {
        assert r[j] == prev[j];
      } else {
        assert prev[i] in prev;
      }
    }
  }

  /** The filter keeps records in the order of their first positions. */
  lemma {:induction false} KeepFirstOrdered(self: seq<School>, n: nat)
    requires n <= |self|
    ensures InFirstOrder(self, KeepFirst(self, n))
  {
    if n > 0 {
      var prev := KeepFirst(self, n - 1);
      var y := self[n - 1];
      KeepFirstOrdered(self, n - 1);
      if FindIndex(self, y.id) == n - 1 {
        assert KeepFirst(self, n) == prev + [y];
        KeepFirstBelow(self, n - 1);
        FirstOrderSnoc(self, prev, y, n - 1);
      } else {
        assert KeepFirst(self, n) == prev;
      }
    }
  }

  /** Every position of a shorter run of the filter is kept by a longer one. */
  lemma {:induction false} KeepFirstPrefix(self: seq<School>, m: nat, n: nat)
    requires m <= n <= |self|
    ensures KeepFirst(self, m) <= KeepFirst(self, n)
    decreases n
  {
    if m < n {
      KeepFirstPrefix(self, m, n - 1);
    }
  }

  lemma UniquePrefix(s: seq<School>, n: nat)
    requires n <= |s| && UniqueIds(s)
    ensures UniqueIds(s[..n])
  {
    forall i, j | 0 <= i < j < n ensures s[..n][i].id != s[..n][j].id {
      assert s[..n][i] == s[i] && s[..n][j] == s[j];
    }
  }

  /** On a list whose ids are already unique the filter keeps every position. */
  lemma {:induction false} KeepFirstOfUnique(self: seq<School>, m: nat)
    requires m <= |self| && UniqueIds(self[..m])
    ensures KeepFirst(self, m) == self[..m]
  {
    if m > 0 {
      LastOfUniqueIsFirst(self, m);
      KeepFirstOfUnique(self, m - 1);
      assert self[..m] == self[..m - 1] + [self[m - 1]];
    }
  }

  /** In a prefix with unique ids, the last position is the first holding its id, and the
      shorter prefix has unique ids too. */
  lemma LastOfUniqueIsFirst(self: seq<School>, m: nat)
    requires 0 < m <= |self| && UniqueIds(self[..m])
    ensures UniqueIds(self[..m - 1])
    ensures FindIndex(self, self[m - 1].id) == m - 1
  {
    assert self[..m][..m - 1] == self[..m - 1];
    UniquePrefix(self[..m], m - 1);
    forall k | 0 <= k < m - 1 ensures self[k].id != self[m - 1].id {
      assert self[..m][k] == self[k] && self[..m][m - 1] == self[m - 1];
    }
  }

  lemma DedupOfUnique(s: seq<School>)
    ensures UniqueIds(s) ==> KeepFirst(s, |s|) == s
  {
    if UniqueIds(s) {
      assert s[..|s|] == s;
      KeepFirstOfUnique(s, |s|);
    }
  }

  /** The deduplication used for `schools`: the first record with each id survives, in the
      order of the list. */
  function Dedup(s: seq<School>): (r: seq<School>)
    ensures UniqueIds(r)
    ensures Ids(r) == Ids(s)
    ensures SubseqOf(r, s)
    ensures forall x :: x in r ==> 0 <= FindIndex(s, x.id) && s[FindIndex(s, x.id)] == x
    ensures UniqueIds(s) ==> r == s
  {
    KeepFirstSubseq(s, |s|);
    KeepFirstIds(s, |s|);
    KeepFirstWins(s, |s|);
    assert s[..|s|] == s;
    DedupOfUnique(s);
    KeepFirst(s, |s|)
  }

  /** The deduplicated list comes in the order of its ids' first positions in the input. */
  lemma DedupInFirstOrder(s: seq<School>)
    ensures InFirstOrder(s, Dedup(s))
  {
    KeepFirstOrdered(s, |s|);
  }

  /** `[...prev, ...data]` deduplicated, where `data` is the fetched batch reversed: ids stay
      unique, every id of either side is kept, and a list that already had unique ids is
      kept whole, in order, at the front. */
  function Merge(prev: seq<School>, batch: seq<School>): (r: seq<School>)
    ensures UniqueIds(r)
    ensures Ids(r) == Ids(prev) + Ids(batch)
    ensures UniqueIds(prev) ==> prev <= r
  {
    var all := prev + Reverse(batch);
    IdsConcat(prev, Reverse(batch));
    ReverseIds(batch);
    MergeKeepsPrefix(prev, batch);
    Dedup(all)
  }

  /** Where each record of a merge comes from: the merge is an order-preserving subsequence
      of the old list followed by the reversed batch, each record is the first one in that
      concatenation with its id, the records come in the order of their ids' first positions
      there, and what follows the old list is the batch's records with new ids, in the order
      of their first positions in the reversed batch. */
  lemma MergeOrigin(prev: seq<School>, batch: seq<School>)
    ensures var r := Merge(prev, batch);
            var all := prev + Reverse(batch);
            SubseqOf(r, all) &&
            (forall x :: x in r ==> 0 <= FindIndex(all, x.id) && all[FindIndex(all, x.id)] == x) &&
            InFirstOrder(all, r) &&
            (UniqueIds(prev) ==>
               SubseqOf(r[|prev|..], Reverse(batch)) && Ids(r[|prev|..]) == Ids(batch) - Ids(prev) &&
               InFirstOrder(Reverse(batch), r[|prev|..]))
  {
    MergeKeepsPrefix(prev, batch);
    DedupInFirstOrder(prev + Reverse(batch));
    var r := Merge(prev, batch);
    if UniqueIds(prev) {
      forall x | x in r[|prev|..] ensures x.id !in Ids(prev) {
        assert x.id in Ids(r[|prev|..]);
      }
      TailInFirstOrder(prev, Reverse(batch), r);
    }
  }

  /** Past a prefix that does not hold `id`, the first position of `id` moves by the
      prefix's length. */
  lemma {:induction false} FindIndexAfter(p: seq<School>, t: seq<School>, id: int)
    requires id !in Ids(p)
    ensures FindIndex(p + t, id) == if FindIndex(t, id) < 0 then -1 else |p| + FindIndex(t, id)
  {
    if p == [] {
      assert p + t == t;
    } else {
      assert p[0] in p;
      assert (p + t)[1..] == p[1..] + t;
      assert Ids(p[1..]) <= Ids(p) by {
        forall x | x in p[1..] ensures x in p { }
      }
      FindIndexAfter(p[1..], t, id);
    }
  }

  /** The part of `r` after `p`, holding no id of `p`, keeps its first-position order when
      the positions are counted in `t` alone. */
  lemma TailInFirstOrder(p: seq<School>, t: seq<School>, r: seq<School>)
    requires |p| <= |r| && InFirstOrder(p + t, r)
    requires forall x :: x in r[|p|..] ==> x.id !in Ids(p)
    ensures InFirstOrder(t, r[|p|..])
  {
    var tail := r[|p|..];
    forall i, j | 0 <= i < j < |tail| ensures FindIndex(t, tail[i].id) < FindIndex(t, tail[j].id) {
      assert tail[i] == r[|p| + i] && tail[j] == r[|p| + j];
      assert tail[i] in tail && tail[j] in tail;
      FindIndexAfter(p, t, tail[i].id);
      FindIndexAfter(p, t, tail[j].id);
    }
  }

  lemma MergeKeepsPrefix(prev: seq<School>, batch: seq<School>)
    ensures UniqueIds(prev) ==> var r := Dedup(prev + Reverse(batch));
            |prev| <= |r| && r[..|prev|] == prev &&
            SubseqOf(r[|prev|..], Reverse(batch)) &&
            Ids(r[|prev|..]) == Ids(batch) - Ids(prev)
  {
    if UniqueIds(prev) {
      MergeKeepsPrefixOfUnique(prev, batch);
    }
  }

  lemma MergeKeepsPrefixOfUnique(prev: seq<School>, batch: seq<School>)
    requires UniqueIds(prev)
    ensures var r := Dedup(prev + Reverse(batch));
            |prev| <= |r| && r[..|prev|] == prev &&
            SubseqOf(r[|prev|..], Reverse(batch)) &&
            Ids(r[|prev|..]) == Ids(batch) - Ids(prev)
  {
    var all := prev + Reverse(batch);
    var r := Dedup(all);
    DedupPrefix(prev, Reverse(batch));
    var tail := r[|prev|..];
    assert r == prev + tail;
    SubseqCancel(prev, tail, Reverse(batch));
    ReverseIds(batch);
    IdsConcat(prev, Reverse(batch));
    TailIds(prev, tail, Ids(prev) + Ids(batch));
  }

  /** Deduplicating `p + t` for a `p` with unique ids starts with `p`. */
  lemma DedupPrefix(p: seq<School>, t: seq<School>)
    requires UniqueIds(p)
    ensures |p| <= |Dedup(p + t)| && Dedup(p + t)[..|p|] == p
  {
    var all := p + t;
    assert all[..|p|] == p;
    assert all[..|all|] == all;
    KeepFirstOfUnique(all, |p|);
    KeepFirstPrefix(all, |p|, |all|);
  }

  /** The ids of the part after a prefix are the ids of the whole minus those of the prefix,
      when no id occurs twice in the whole. */
  lemma TailIds(p: seq<School>, tail: seq<School>, whole: set<int>)
    requires UniqueIds(p + tail) && Ids(p + tail) == whole
    ensures Ids(tail) == whole - Ids(p)
  {
    IdsConcat(p, tail);
    forall id | id in Ids(tail) ensures id !in Ids(p) {
      IdsMember(tail, id);
      IdsMember(p, id);
      var j :| 0 <= j < |tail| && tail[j].id == id;
      forall i | 0 <= i < |p| ensures p[i].id != id {
        assert (p + tail)[i] == p[i] && (p + tail)[|p| + j] == tail[j];
      }
    }
  }

  /** A list whose first element's id does not occur in the rest, and whose rest has unique
      ids, has unique ids. */
  lemma UniqueCons(x: School, t: seq<School>)
    ensures UniqueIds([x] + t) <==> x.id !in Ids(t) && UniqueIds(t)
  {
    var s := [x] + t;
    IdsMember(t, x.id);
    if UniqueIds(s) {
      forall i, j | 0 <= i < j < |t| ensures t[i].id != t[j].id {
        assert s[i + 1] == t[i] && s[j + 1] == t[j];
      }
      forall k | 0 <= k < |t| ensures t[k].id != x.id {
        assert s[k + 1] == t[k] && s[0] == x;
      }
    }
    if x.id !in Ids(t) && UniqueIds(t) {
      forall i, j | 0 <= i < j < |s| ensures s[i].id != s[j].id {
        if i == 0 {
          assert s[j] == t[j - 1];
        } else {
          assert s[i] == t[i - 1] && s[j] == t[j - 1];
        }
      }
    }
  }

  /** An order-preserving subsequence of a list with unique ids has unique ids. */
  lemma {:induction false} SubseqUnique(a: seq<School>, b: seq<School>)
    requires SubseqOf(a, b) && UniqueIds(b)
    ensures UniqueIds(a)
    decreases |b|
  {
    if a != [] {
      assert b == [b[0]] + b[1..];
      UniqueCons(b[0], b[1..]);
      if a[0] == b[0] && SubseqOf(a[1..], b[1..]) {
        SubseqUnique(a[1..], b[1..]);
        SubseqMembers(a[1..], b[1..]);
        IdsMember(b[1..], a[0].id);
        IdsMember(a[1..], a[0].id);
        forall k | 0 <= k < |a[1..]| ensures a[1..][k].id != a[0].id {
          assert a[1..][k] in b[1..];
        }
        assert a == [a[0]] + a[1..];
        UniqueCons(a[0], a[1..]);
      } else {
        SubseqUnique(a, b[1..]);
      }
    }
  }

  // ---------------------------------------------------------------------------
  // Deletion by id (`schools.filter(school => school.id !== schoolId)`)
  // ---------------------------------------------------------------------------

  /** The list without the records whose id is `id`, the others kept in order. */
  function Remove(s: seq<School>, id: int): (r: seq<School>)
    ensures forall x :: x in r <==> x in s && x.id != id
    ensures SubseqOf(r, s)
  {
    if s == [] then []
    else if s[0].id != id then
      var r := [s[0]] + Remove(s[1..], id);
      assert r[0] == s[0] && r[1..] == Remove(s[1..], id);
      r
    else Remove(s[1..], id)
  }

  /** Deleting keeps every copy of a record with another id and no copy of one with `id`. */
  lemma {:induction false} RemoveCounts(s: seq<School>, id: int)
    ensures forall y :: multiset(Remove(s, id))[y] == if y.id != id then multiset(s)[y] else 0
  {
    if s != [] {
      RemoveCounts(s[1..], id);
      assert s == [s[0]] + s[1..];
    }
  }

  /** Deleting keeps ids unique and deleting an id that is absent changes nothing. */
  lemma {:induction false} RemoveAbsent(s: seq<School>, id: int)
    ensures id !in Ids(s) ==> Remove(s, id) == s
    ensures UniqueIds(s) ==> UniqueIds(Remove(s, id))
  {
    if UniqueIds(s) {
      SubseqUnique(Remove(s, id), s);
    }
    if s != [] {
      RemoveAbsent(s[1..], id);
      assert s == [s[0]] + s[1..];
      IdsConcat([s[0]], s[1..]);
      assert Ids([s[0]]) == {s[0].id};
    }
  }

  /** Deleting a present id from a list with unique ids removes exactly one record. */
  lemma {:induction false} RemoveOne(s: seq<School>, id: int)
    requires UniqueIds(s) && id in Ids(s)
    ensures |Remove(s, id)| == |s| - 1
  {
    assert s == [s[0]] + s[1..];
    UniqueCons(s[0], s[1..]);
    IdsConcat([s[0]], s[1..]);
    assert Ids([s[0]]) == {s[0].id};
    if s[0].id == id {
      RemoveAbsent(s[1..], id);
    } else {
      RemoveOne(s[1..], id);
    }
  }
}
