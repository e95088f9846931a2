/** The part of a trie below a key prefix, and which items it holds. */
module Subtree {
  import opened Bits
  import opened Results
  import opened Keys
  import opened Trie

  /** The part of a trie below a key prefix, and the index of its first key. */
  function Sub(t: Trie, rest: Key, index: nat): Option<(Trie, nat)> {
    if rest <= t.run then Some((t.(run := t.run[|rest|..]), index))
    else if t.run <= rest then KidSub(t.kids, rest[|t.run|..], KidsIndex(t.term, index))
    else None
  }

  function KidSub(kids: Kids, rest: Key, index: nat): Option<(Trie, nat)>
    requires rest != []
  {
    if kids.NoKids? then None
    else if kids.first.run != [] && kids.first.run[0] == rest[0] then Sub(kids.first, rest, index)
    else KidSub(kids.rest, rest, index + Count(kids.first))
  }

  /** Of the items, exactly those at positions i..i + n start with p. */
  ghost predicate OnlyThese(items: seq<Item>, p: Key, i: nat, n: nat) {
    && i + n <= |items|
    && forall j :: 0 <= j < |items| ==> (p <= items[j].key <==> i <= j < i + n)
  }

  /** What Sub selects is exactly the items whose keys start with the prefix. */
  ghost predicate Selects(items: seq<Item>, p: Key, index: nat, found: Option<(Trie, nat)>) {
    match found
    case None => OnlyThese(items, p, 0, 0)
    case Some((t, i)) =>
      && index <= i && OnlyThese(items, p, i - index, Count(t))
      && Items(t, p, i) == items[i - index..i - index + Count(t)]
  }

  lemma {:induction false} ItemsStart(t: Trie, prefix: Key, index: nat)
    ensures forall j :: 0 <= j < Count(t) ==> prefix + t.run <= Items(t, prefix, index)[j].key
  {
    KidItemsStart(t.kids, prefix + t.run, KidsIndex(t.term, index));
  }

  lemma {:induction false} KidItemsStart(kids: Kids, prefix: Key, index: nat)
    ensures forall j :: 0 <= j < KidsCount(kids) ==> prefix <= KidItems(kids, prefix, index)[j].key
  {
    if kids.Kid? {
      ItemsStart(kids.first, prefix, index);
      KidItemsStart(kids.rest, prefix, index + Count(kids.first));
    }
  }

  lemma SelectsLeft(a: seq<Item>, b: seq<Item>, p: Key, index: nat, found: Option<(Trie, nat)>)
    requires Selects(a, p, index, found) && OnlyThese(b, p, 0, 0)
    ensures Selects(a + b, p, index, found)
  {
  }

  lemma SelectsRight(a: seq<Item>, b: seq<Item>, p: Key, index: nat, found: Option<(Trie, nat)>)
    requires OnlyThese(a, p, 0, 0) && Selects(b, p, index + |a|, found)
    ensures Selects(a + b, p, index, found)
  {
    if found.Some? {
      var t, i := found.value.0, found.value.1;
      assert (a + b)[i - index..i - index + Count(t)] == b[i - index - |a|..i - index - |a| + Count(t)];
    }
  }

  /** Keys that start with one of two diverging strings do not start with the other. */
  lemma Diverge(key: Key, a: Key, b: Key, i: nat)
    requires a <= key && i < |a| && i < |b| && a[i] != b[i]
    ensures !(b <= key)
  {
  }

  lemma {:induction false} NoneBelow(kids: Kids, prefix: Key, rest: Key, index: nat)
    requires rest != [] && KidsWellFormed(kids, rest[0])
    ensures OnlyThese(KidItems(kids, prefix, index), prefix + rest, 0, 0)
  {
    if kids.Kid? {
      NoneBelowFrom(kids, prefix, rest, index, rest[0]);
    }
  }

  lemma {:induction false} NoneBelowFrom(kids: Kids, prefix: Key, rest: Key, index: nat, above: int)
    requires rest != [] && KidsWellFormed(kids, above) && rest[0] <= above
    ensures OnlyThese(KidItems(kids, prefix, index), prefix + rest, 0, 0)
  {
    if kids.Kid? {
      NotThisKid(kids.first, prefix, rest, index);
      NoneBelowFrom(kids.rest, prefix, rest, index + Count(kids.first), kids.first.run[0]);
    }
  }

  lemma NotThisKid(t: Trie, prefix: Key, rest: Key, index: nat)
    requires rest != [] && t.run != [] && t.run[0] != rest[0]
    ensures OnlyThese(Items(t, prefix, index), prefix + rest, 0, 0)
  {
    ItemsStart(t, prefix, index);
    forall j | 0 <= j < Count(t)
      ensures !(prefix + rest <= Items(t, prefix, index)[j].key)
    {
      Diverge(Items(t, prefix, index)[j].key, prefix + t.run, prefix + rest, |prefix|);
    }
  }

  lemma {:induction false} SubSelects(t: Trie, prefix: Key, rest: Key, index: nat)
    requires WellFormed(t)
    ensures Selects(Items(t, prefix, index), prefix + rest, index, Sub(t, rest, index))
    decreases t
  {
    hide OnlyThese, Selects, WellFormed, Items, KidItems;
    if rest <= t.run {
      SubAll(t, prefix, rest, index);
    } else if t.run <= rest {
      SubKids(t, prefix, rest, index);
    } else {
      SubNone(t, prefix, rest, index);
    }
  }

  lemma SubAll(t: Trie, prefix: Key, rest: Key, index: nat)
    requires rest <= t.run
    ensures Selects(Items(t, prefix, index), prefix + rest, index, Some((t.(run := t.run[|rest|..]), index)))
  {
    ItemsStart(t, prefix, index);
    var t' := t.(run := t.run[|rest|..]);
    assert prefix + rest + t'.run == prefix + t.run;
    assert prefix + rest <= prefix + t.run;
    var items := Items(t, prefix, index);
    assert items[index - index..index - index + Count(t')] == items;
  }

  lemma SubNone(t: Trie, prefix: Key, rest: Key, index: nat)
    requires !(rest <= t.run) && !(t.run <= rest)
    ensures Selects(Items(t, prefix, index), prefix + rest, index, None)
  {
    ItemsStart(t, prefix, index);
    var i :| 0 <= i < |rest| && i < |t.run| && rest[i] != t.run[i];
    forall j | 0 <= j < Count(t)
      ensures !(prefix + rest <= Items(t, prefix, index)[j].key)
    {
      Diverge(Items(t, prefix, index)[j].key, prefix + t.run, prefix + rest, |prefix| + i);
    }
  }

  lemma {:induction false} SubKids(t: Trie, prefix: Key, rest: Key, index: nat)
    requires WellFormed(t) && t.run < rest
    ensures Selects(Items(t, prefix, index), prefix + rest, index,
                    KidSub(t.kids, rest[|t.run|..], KidsIndex(t.term, index)))
    decreases t, 0
  {
    hide Selects, Sub;
    var key, below := prefix + t.run, rest[|t.run|..];
    assert key + below == prefix + rest;
    KidSubSelects(t.kids, -1, key, below, KidsIndex(t.term, index));
    if !t.term.NoKey? {
      var own := [Item(key, t.term, index)];
      assert OnlyThese(own, prefix + rest, 0, 0);
      SelectsRight(own, KidItems(t.kids, key, index + 1), prefix + rest, index, KidSub(t.kids, below, index + 1));
    }
  }

  lemma {:induction false} KidSubSelects(kids: Kids, above: int, prefix: Key, rest: Key, index: nat)
    requires rest != [] && KidsWellFormed(kids, above)
    ensures Selects(KidItems(kids, prefix, index), prefix + rest, index, KidSub(kids, rest, index))
    decreases kids
  {
    hide Selects, Sub, Items;
    if kids.NoKids? {
      assert Selects([], prefix + rest, index, None) by { NothingSelected(prefix + rest, index); }
    } else {
      var first := Items(kids.first, prefix, index);
      var others := KidItems(kids.rest, prefix, index + Count(kids.first));
      if kids.first.run[0] == rest[0] {
        SubSelects(kids.first, prefix, rest, index);
        NoneBelow(kids.rest, prefix, rest, index + Count(kids.first));
        SelectsLeft(first, others, prefix + rest, index, Sub(kids.first, rest, index));
      } else {
        NotThisKid(kids.first, prefix, rest, index);
        KidSubSelects(kids.rest, kids.first.run[0], prefix, rest, index + Count(kids.first));
        SelectsRight(first, others, prefix + rest, index, KidSub(kids.rest, rest, index + Count(kids.first)));
      }
    }
  }

  lemma NothingSelected(p: Key, index: nat)
    ensures Selects([], p, index, None)
  {
  }

  /** The child that starts with byte b. */
  ghost function Pick(kids: Kids, b: byte, index: nat): Option<(Trie, nat)> {
    if kids.NoKids? then None
    else if kids.first.run != [] && kids.first.run[0] == b then Some((kids.first, index))
    else Pick(kids.rest, b, index + Count(kids.first))
  }

  lemma {:induction false} KidSubPicks(kids: Kids, rest: Key, index: nat)
    requires rest != []
    ensures KidSub(kids, rest, index)
         == match Pick(kids, rest[0], index) case None => None case Some(k) => Sub(k.0, rest, k.1)
    ensures Pick(kids, rest[0], index).Some? ==> Pick(kids, rest[0], index).value.0.run != []
  {
    hide Sub;
    if kids.Kid? {
      KidSubPicks(kids.rest, rest, index + Count(kids.first));
    }
  }

  lemma SubShift(t: Trie, rest: Key, index: nat)
    requires t.run != [] && rest != []
    ensures Sub(t, rest, index)
         == if t.run[0] == rest[0] then Sub(t.(run := t.run[1..]), rest[1..], index) else None
  {
    hide KidSub;
    var t' := t.(run := t.run[1..]);
    if t.run[0] == rest[0] {
      assert t.run == [rest[0]] + t'.run && rest == [rest[0]] + rest[1..];
      if rest <= t.run {
        assert t'.run[|rest[1..]|..] == t.run[|rest|..];
      } else if t.run <= rest {
        assert rest[1..][|t'.run|..] == rest[|t.run|..];
      }
    }
  }
}
