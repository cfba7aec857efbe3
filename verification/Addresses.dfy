/** Address lists and addrs_remove, which mupgrade_root.c and mwifi.c both contain. */
module Addresses {
  import opened Prelude

  /** The list without the first occurrence of `a`. */
  function RemoveFirst(list: seq<Addr>, a: Addr): (r: seq<Addr>)
  {
    if list == [] then [] else if list[0] == a then list[1..] else [list[0]] + RemoveFirst(list[1..], a)
  }

  lemma {:induction false} RemoveFirstContents(list: seq<Addr>, a: Addr)
    ensures |RemoveFirst(list, a)| == |list| - if a in list then 1 else 0
    ensures multiset(RemoveFirst(list, a)) == multiset(list) - multiset{a}
    ensures a !in list ==> RemoveFirst(list, a) == list
  {
    if list != [] {
      assert list == [list[0]] + list[1..];
      RemoveFirstContents(list[1..], a);
    }
  }

  ghost predicate NoDup(list: seq<Addr>) {
    forall a :: multiset(list)[a] <= 1
  }

  lemma NoDupRemove(list: seq<Addr>, a: Addr)
    requires NoDup(list)
    ensures NoDup(RemoveFirst(list, a))
    ensures a !in RemoveFirst(list, a)
    ensures forall b :: b in RemoveFirst(list, a) <==> b in list && b != a
  {
    var r := RemoveFirst(list, a);
    RemoveFirstContents(list, a);
    forall b: Addr ensures b in r <==> b in list && b != a {
      assert b in r <==> b in multiset(r);
      assert b in list <==> b in multiset(list);
    }
  }

  ghost predicate Disjoint(x: seq<Addr>, y: seq<Addr>) {
    forall a | a in x :: a !in y
  }

  lemma NoDupConcat(x: seq<Addr>, y: seq<Addr>)
    requires NoDup(x + y)
    ensures NoDup(x) && NoDup(y) && Disjoint(x, y)
  {
    forall a: Addr ensures multiset(x)[a] <= 1 && multiset(y)[a] <= 1 && (a in x ==> a !in y) {
      assert multiset(x + y)[a] == multiset(x)[a] + multiset(y)[a];
      assert a in x <==> multiset(x)[a] > 0;
      assert a in y <==> multiset(y)[a] > 0;
    }
  }

  lemma NoDupAppend(list: seq<Addr>, a: Addr)
    requires NoDup(list) && a !in list
    ensures NoDup(list + [a])
  {
    assert a !in multiset(list);
  }

  lemma NobodyLeft(list: seq<Addr>)
    ensures list == [] || exists a :: a in list
  {
    if list != [] {
      assert list[0] in list;
    }
  }

  lemma {:induction false} RemoveFirstAt(list: seq<Addr>, i: nat, a: Addr)
    requires i < |list| && list[i] == a && a !in list[..i]
    ensures RemoveFirst(list, a) == list[..i] + list[i + 1..]
  {
    if i > 0 {
      var rest := list[1..];
      assert list[0] != a by { assert list[..i][0] == list[0]; }
      assert a !in rest[..i - 1] by { assert rest[..i - 1] == list[1..i] && list[..i] == [list[0]] + list[1..i]; }
      RemoveFirstAt(rest, i - 1, a);
      assert rest[i..] == list[i + 1..];
      assert [list[0]] + (rest[..i - 1] + rest[i..]) == list[..i] + list[i + 1..];
    }
  }

  /** The memcpy of addrs_remove: the entries behind `i` move down by one place. */
  method CloseGap(list: array<Addr>, i: nat, num: nat)
    requires i < num <= list.Length
    modifies list
    ensures list[..num - 1] == old(list[..i]) + old(list[i + 1..num])
    ensures list[num - 1..] == old(list[num - 1..])
  {
    for k := i to num - 1
      invariant forall j | 0 <= j < i :: list[j] == old(list[j])
      invariant forall j | i <= j < k :: list[j] == old(list[j + 1])
      invariant forall j | k <= j < list.Length :: list[j] == old(list[j])
    {
      list[k] := list[k + 1];
    }
  }

  /** addrs_remove */
  method AddrsRemove(list: array<Addr>, num: nat, addr: Addr) returns (left: nat, found: bool)
    requires num <= list.Length
    modifies list
    ensures found <==> addr in old(list[..num])
    ensures left == num - if found then 1 else 0
    ensures list[..left] == RemoveFirst(old(list[..num]), addr)
    ensures list[left..] == old(list[left..])
  {
    ghost var was := list[..num];
    var i := 0;
    while i < num && list[i] != addr
      invariant i <= num
      invariant forall k | 0 <= k < i :: was[k] != addr
    {
      i := i + 1;
    }
    if i < num {
      RemoveFirstAt(was, i, addr);
      assert was[i] == addr;
      assert was[..i] == list[..i] && was[i + 1..] == list[i + 1..num];
      CloseGap(list, i, num);
      return num - 1, true;
    }
    RemoveFirstContents(was, addr);
    return num, false;
  }
}
