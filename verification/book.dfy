/** The book (src/book.rs): poems keyed by number, plus the sorted projection. */
module Books {
  import opened Errors
  import opened Digits
  import Poems
  import Seqs

  datatype Book = Book(nn: U32, poems: map<U32, Poems.Poem>)

  /** Every key names the poem stored under it. */
  ghost predicate KeysMatch(b: Book) {
    forall k :: k in b.poems ==> b.poems[k].nn == k
  }

  /** `Book::new`: no poems yet. */
  function New(nn: U32): (b: Book)
    ensures b.nn == nn && |b.poems| == 0
  {
    Book(nn, map[])
  }

  /** `Book::add`: store `p` under its own number, replacing what was there. */
  function Add(b: Book, p: Poems.Poem): (r: Book)
    ensures r.nn == b.nn
    ensures r.poems.Keys == b.poems.Keys + {p.nn}
    ensures r.poems[p.nn] == p
    ensures forall k :: k in b.poems && k != p.nn ==> r.poems[k] == b.poems[k]
  {
    b.(poems := b.poems[p.nn := p])
  }

  /** Adding several poems one after another. */
  function AddAll(b: Book, ps: seq<Poems.Poem>): Book
    decreases |ps|
  {
    if |ps| == 0 then b else AddAll(Add(b, ps[0]), ps[1..])
  }

  lemma AddKeepsKeysMatch(b: Book, p: Poems.Poem)
    requires KeysMatch(b)
    ensures KeysMatch(Add(b, p))
  {
  }

  /** A book filled through `add` alone has every key equal to its poem's number. */
  lemma {:induction false} AddAllKeepsKeysMatch(b: Book, ps: seq<Poems.Poem>)
    requires KeysMatch(b)
    ensures KeysMatch(AddAll(b, ps))
    ensures AddAll(b, ps).nn == b.nn
    decreases |ps|
  {
    if |ps| > 0 {
      AddKeepsKeysMatch(b, ps[0]);
      AddAllKeepsKeysMatch(Add(b, ps[0]), ps[1..]);
    }
  }

  ghost predicate SortedByNn(ps: seq<Poems.Poem>) {
    forall i, j :: 0 <= i < j < |ps| ==> ps[i].nn <= ps[j].nn
  }

  ghost predicate StrictlySortedByNn(ps: seq<Poems.Poem>) {
    forall i, j :: 0 <= i < j < |ps| ==> ps[i].nn < ps[j].nn
  }

  /**
   * What `get_ordered_poems` returns: the stored poems, each as often as it is
   * stored, in ascending order of number; strictly ascending when every key
   * names its poem.
   */
  ghost predicate OrderedView(b: Book, ps: seq<Poems.Poem>) {
    && |ps| == |b.poems|
    && (forall i :: 0 <= i < |ps| ==> ps[i] in b.poems.Values)
    && (forall k :: k in b.poems ==> b.poems[k] in ps)
    && SortedByNn(ps)
    && (KeysMatch(b) ==> StrictlySortedByNn(ps))
  }

  /** A key, among `ks`, whose poem has the least number. */
  ghost function LeastKey(poems: map<U32, Poems.Poem>, ks: set<U32>): (k: U32)
    requires ks != {} && ks <= poems.Keys
    ensures k in ks
    ensures forall j :: j in ks ==> poems[k].nn <= poems[j].nn
    decreases |ks|
  {
    var x :| x in ks;
    if ks == {x} then x
    else
      var m := LeastKey(poems, ks - {x});
      if poems[x].nn < poems[m].nn then x else m
  }

  /**
   * Part way through the projection: `ps` lists, in ascending order, the
   * poems under the distinct keys `keys`, none of which is still in `rest`,
   * every poem left in `rest` comes later, and every key already taken out
   * of `rest` has been listed.
   */
  ghost predicate Selection(b: Book, rest: set<U32>, ps: seq<Poems.Poem>, keys: seq<U32>) {
    && rest <= b.poems.Keys
    && |keys| == |ps| && |ps| + |rest| == |b.poems|
    && (forall i :: 0 <= i < |ps| ==> keys[i] in b.poems && keys[i] !in rest && ps[i] == b.poems[keys[i]])
    && (forall i, j :: 0 <= i < j < |keys| ==> keys[i] != keys[j])
    && (forall k :: k in b.poems && k !in rest ==> b.poems[k] in ps)
    && SortedByNn(ps)
    && (forall i, k :: 0 <= i < |ps| && k in rest ==> ps[i].nn <= b.poems[k].nn)
  }

  /** The listing keeps pointing at the right entries, each key once. */
  lemma SelectKeys(b: Book, rest: set<U32>, ps: seq<Poems.Poem>, keys: seq<U32>, k: U32)
    requires |keys| == |ps| && k in rest && rest <= b.poems.Keys
    requires forall i :: 0 <= i < |ps| ==> keys[i] in b.poems && keys[i] !in rest && ps[i] == b.poems[keys[i]]
    requires forall i, j :: 0 <= i < j < |keys| ==> keys[i] != keys[j]
    ensures forall i :: 0 <= i < |ps| + 1 ==>
      (keys + [k])[i] in b.poems && (keys + [k])[i] !in rest - {k} && (ps + [b.poems[k]])[i] == b.poems[(keys + [k])[i]]
    ensures forall i, j :: 0 <= i < j < |keys| + 1 ==> (keys + [k])[i] != (keys + [k])[j]
  {
    var ps', keys' := ps + [b.poems[k]], keys + [k];
    forall i | 0 <= i < |ps'|
      ensures keys'[i] in b.poems && keys'[i] !in rest - {k} && ps'[i] == b.poems[keys'[i]]
    {
      if i < |ps| {
        assert keys'[i] == keys[i] && ps'[i] == ps[i];
      }
    }
    forall i, j | 0 <= i < j < |keys'|
      ensures keys'[i] != keys'[j]
    {
      assert keys'[i] == keys[i];
      if j < |keys| {
        assert keys'[j] == keys[j];
      }
    }
  }

  /** Every key out of `rest` stays listed. */
  lemma SelectCovers(b: Book, rest: set<U32>, ps: seq<Poems.Poem>, k: U32)
    requires k in b.poems
    requires forall x :: x in b.poems && x !in rest ==> b.poems[x] in ps
    ensures forall x :: x in b.poems && x !in rest - {k} ==> b.poems[x] in ps + [b.poems[k]]
  {
    var ps' := ps + [b.poems[k]];
    forall x | x in b.poems && x !in rest - {k}
      ensures b.poems[x] in ps'
    {
      if x == k {
        assert ps'[|ps|] == b.poems[k];
      } else {
        assert b.poems[x] in ps;
      }
    }
  }

  /** A least remaining poem goes after everything listed and before everything left. */
  lemma SelectSorted(b: Book, rest: set<U32>, ps: seq<Poems.Poem>, k: U32)
    requires rest <= b.poems.Keys && k in rest
    requires SortedByNn(ps)
    requires forall i, x :: 0 <= i < |ps| && x in rest ==> ps[i].nn <= b.poems[x].nn
    requires forall j :: j in rest ==> b.poems[k].nn <= b.poems[j].nn
    ensures SortedByNn(ps + [b.poems[k]])
    ensures forall i, x :: 0 <= i < |ps| + 1 && x in rest - {k} ==> (ps + [b.poems[k]])[i].nn <= b.poems[x].nn
  {
    var ps' := ps + [b.poems[k]];
    forall i, j | 0 <= i < j < |ps'|
      ensures ps'[i].nn <= ps'[j].nn
    {
      assert ps'[i] == ps[i];
      if j < |ps| {
        assert ps'[j] == ps[j];
      }
    }
    forall i, x | 0 <= i < |ps'| && x in rest - {k}
      ensures ps'[i].nn <= b.poems[x].nn
    {
      if i < |ps| {
        assert ps'[i] == ps[i];
      }
    }
  }

  /** Moving a least remaining key from `rest` to the end of the listing keeps the selection. */
  lemma SelectLeast(b: Book, rest: set<U32>, ps: seq<Poems.Poem>, keys: seq<U32>, k: U32)
    requires Selection(b, rest, ps, keys)
    requires k in rest && forall j :: j in rest ==> b.poems[k].nn <= b.poems[j].nn
    ensures Selection(b, rest - {k}, ps + [b.poems[k]], keys + [k])
  {
    assert |rest - {k}| == |rest| - 1;
    SelectKeys(b, rest, ps, keys, k);
    SelectCovers(b, rest, ps, k);
    SelectSorted(b, rest, ps, k);
  }

  /** Once no key is left, the listing is the ordered view of the book. */
  lemma SelectionDone(b: Book, ps: seq<Poems.Poem>, keys: seq<U32>)
    requires Selection(b, {}, ps, keys)
    ensures OrderedView(b, ps)
  {
    forall i | 0 <= i < |ps|
      ensures ps[i] in b.poems.Values
    {
      assert b.poems[keys[i]] == ps[i];
    }
    if KeysMatch(b) {
      forall i, j | 0 <= i < j < |ps|
        ensures ps[i].nn < ps[j].nn
      {
        assert ps[i].nn == keys[i] && ps[j].nn == keys[j];
      }
    }
  }

  /**
   * `Book::get_ordered_poems`: the map's values sorted by number. The ghost
   * `keys` records which entry each output element came from.
   */
  method GetOrderedPoems(b: Book) returns (ps: seq<Poems.Poem>, ghost keys: seq<U32>)
    ensures OrderedView(b, ps)
    ensures |keys| == |ps|
    ensures forall i :: 0 <= i < |ps| ==> keys[i] in b.poems && ps[i] == b.poems[keys[i]]
    ensures forall i, j :: 0 <= i < j < |keys| ==> keys[i] != keys[j]
  {
    ps, keys := [], [];
    var rest := b.poems.Keys;
    while rest != {}
      invariant Selection(b, rest, ps, keys)
      decreases |rest|
    {
      ghost var least := LeastKey(b.poems, rest);
      var k :| k in rest && forall j :: j in rest ==> b.poems[k].nn <= b.poems[j].nn;
      SelectLeast(b, rest, ps, keys, k);
      ps, keys := ps + [b.poems[k]], keys + [k];
      rest := rest - {k};
    }
    SelectionDone(b, ps, keys);
  }

  /** Strictly sorted sequences with the same elements start alike. */
  lemma SameLeast(a: seq<Poems.Poem>, c: seq<Poems.Poem>)
    requires StrictlySortedByNn(a) && StrictlySortedByNn(c)
    requires forall p :: p in a <==> p in c
    requires |a| > 0
    ensures |c| > 0 && a[0] == c[0]
  {
    assert a[0] in c;
    var i :| 0 <= i < |c| && c[i] == a[0];
    assert c[0] in a;
    var j :| 0 <= j < |a| && a[j] == c[0];
    assert c[0].nn <= c[i].nn;
    assert a[0].nn <= a[j].nn;
  }

  /** ... and, without their first elements, still hold the same elements. */
  lemma SameRest(a: seq<Poems.Poem>, c: seq<Poems.Poem>)
    requires StrictlySortedByNn(a) && StrictlySortedByNn(c)
    requires forall p :: p in a <==> p in c
    requires |a| > 0 && |c| > 0 && a[0] == c[0]
    ensures forall p :: p in a[1..] <==> p in c[1..]
  {
    forall p
      ensures p in a[1..] ==> p in c[1..]
      ensures p in c[1..] ==> p in a[1..]
    {
      if p in a[1..] {
        var i :| 1 <= i < |a| && a[i] == p;
        assert a[0].nn < a[i].nn;
        assert p in a && p in c;
        var j :| 0 <= j < |c| && c[j] == p;
        assert j != 0;
        assert c[1..][j - 1] == p;
      }
      if p in c[1..] {
        var i :| 1 <= i < |c| && c[i] == p;
        assert c[0].nn < c[i].nn;
        assert p in c && p in a;
        var j :| 0 <= j < |a| && a[j] == p;
        assert j != 0;
        assert a[1..][j - 1] == p;
      }
    }
  }

  /** Two strictly sorted sequences with the same elements are the same sequence. */
  lemma {:induction false} StrictlySortedUnique(a: seq<Poems.Poem>, c: seq<Poems.Poem>)
    requires StrictlySortedByNn(a) && StrictlySortedByNn(c)
    requires forall p :: p in a <==> p in c
    ensures a == c
    decreases |a|
  {
    if |a| > 0 {
      SameLeast(a, c);
      SameRest(a, c);
      StrictlySortedUnique(a[1..], c[1..]);
      assert a == [a[0]] + a[1..];
      assert c == [c[0]] + c[1..];
    } else {
      Seqs.HeadIsElement(c);
    }
  }

  /**
   * The projection does not depend on anything but the book: any two results
   * for the same book (with every key naming its poem) are equal.
   */
  lemma OrderedViewDeterministic(b: Book, ps1: seq<Poems.Poem>, ps2: seq<Poems.Poem>)
    requires KeysMatch(b) && OrderedView(b, ps1) && OrderedView(b, ps2)
    ensures ps1 == ps2
  {
    forall p
      ensures p in ps1 <==> p in ps2
    {
      if p in ps1 {
        var i :| 0 <= i < |ps1| && ps1[i] == p;
        assert ps1[i] in b.poems.Values;
      }
      if p in ps2 {
        var i :| 0 <= i < |ps2| && ps2[i] == p;
        assert ps2[i] in b.poems.Values;
      }
    }
    StrictlySortedUnique(ps1, ps2);
  }

  /** The insertion order of the source's test book: poem numbers 5, 1, 2, 4, 7, 6, 3. */
  function Shuffled(t: seq<Poems.Poem>): seq<Poems.Poem>
    requires |t| == 7
  {
    [t[4], t[0], t[1], t[3], t[6], t[5], t[2]]
  }

  /**
   * Adding poems with pairwise different numbers stores each under its number
   * and adds no other key.
   */
  lemma {:induction false} AddAllContents(b: Book, ps: seq<Poems.Poem>)
    requires forall i, j :: 0 <= i < j < |ps| ==> ps[i].nn != ps[j].nn
    ensures forall p :: p in ps ==> p.nn in AddAll(b, ps).poems && AddAll(b, ps).poems[p.nn] == p
    ensures forall k :: k in AddAll(b, ps).poems ==> k in b.poems || exists p :: p in ps && p.nn == k
    ensures forall k :: k in b.poems && (forall p :: p in ps ==> p.nn != k) ==>
              k in AddAll(b, ps).poems && AddAll(b, ps).poems[k] == b.poems[k]
    decreases |ps|
  {
    if |ps| > 0 {
      var b' := Add(b, ps[0]);
      AddAllContents(b', ps[1..]);
      assert AddAll(b, ps) == AddAll(b', ps[1..]);
      forall p | p in ps
        ensures p.nn in AddAll(b, ps).poems && AddAll(b, ps).poems[p.nn] == p
      {
        if p != ps[0] {
          assert p in ps[1..];
        } else {
          assert forall q :: q in ps[1..] ==> q.nn != p.nn;
          assert p.nn in b'.poems && b'.poems[p.nn] == p;
        }
      }
      forall k | k in AddAll(b, ps).poems
        ensures k in b.poems || exists p :: p in ps && p.nn == k
      {
        if k !in b'.poems {
          var p :| p in ps[1..] && p.nn == k;
          assert p in ps;
        } else if k !in b.poems {
          assert ps[0] in ps && ps[0].nn == k;
        }
      }
    }
  }

  lemma ShuffledFacts(t: seq<Poems.Poem>)
    requires |t| == 7 && forall i :: 0 <= i < 7 ==> t[i].nn == i + 1
    ensures forall p :: p in Shuffled(t) <==> p in t
    ensures forall i, j :: 0 <= i < j < 7 ==> Shuffled(t)[i].nn != Shuffled(t)[j].nn
    ensures StrictlySortedByNn(t)
  {
  }

  /** The projection of a book is the strictly sorted listing of exactly its stored poems. */
  lemma OrderedViewIsListing(b: Book, ps: seq<Poems.Poem>, t: seq<Poems.Poem>)
    requires KeysMatch(b) && OrderedView(b, ps)
    requires StrictlySortedByNn(t)
    requires forall p :: p in t <==> p in b.poems.Values
    ensures ps == t
  {
    forall p
      ensures p in ps <==> p in t
    {
      if p in ps {
        var i :| 0 <= i < |ps| && ps[i] == p;
        assert ps[i] in b.poems.Values;
      }
      if p in t {
        var k :| k in b.poems && b.poems[k] == p;
        assert b.poems[k] in ps;
      }
    }
    StrictlySortedUnique(ps, t);
  }

  /** A book filled from nothing with poems of distinct numbers holds exactly those poems. */
  lemma AddAllValues(n: U32, ps: seq<Poems.Poem>)
    requires forall i, j :: 0 <= i < j < |ps| ==> ps[i].nn != ps[j].nn
    ensures forall p :: p in AddAll(New(n), ps).poems.Values <==> p in ps
  {
    var b := AddAll(New(n), ps);
    AddAllContents(New(n), ps);
    forall p
      ensures p in b.poems.Values <==> p in ps
    {
      if p in ps {
        assert b.poems[p.nn] == p;
      }
      if p in b.poems.Values {
        var k :| k in b.poems && b.poems[k] == p;
        var q :| q in ps && q.nn == k;
        assert b.poems[q.nn] == q;
      }
    }
  }

  lemma ShuffledBookValues(t: seq<Poems.Poem>)
    requires |t| == 7 && forall i :: 0 <= i < 7 ==> t[i].nn == i + 1
    ensures KeysMatch(AddAll(New(7), Shuffled(t)))
    ensures forall p :: p in t <==> p in AddAll(New(7), Shuffled(t)).poems.Values
  {
    ShuffledFacts(t);
    AddAllValues(7, Shuffled(t));
    AddAllKeepsKeysMatch(New(7), Shuffled(t));
  }

  /** Poems inserted out of order (5, 1, 2, 4, 7, 6, 3) come back as 1, 2, ..., 7. */
  lemma OutOfOrderComesBackSorted(t: seq<Poems.Poem>, ps: seq<Poems.Poem>)
    requires |t| == 7 && forall i :: 0 <= i < 7 ==> t[i].nn == i + 1
    requires OrderedView(AddAll(New(7), Shuffled(t)), ps)
    ensures ps == t
  {
    ShuffledFacts(t);
    ShuffledBookValues(t);
    OrderedViewIsListing(AddAll(New(7), Shuffled(t)), ps, t);
  }
}
