/** Reversal, concatenation and removal, shared by every queue of the stack, and descriptor tables. */
module Sequences {
  import opened Bytes

  function Reverse<T>(s: seq<T>): (r: seq<T>)
    ensures |r| == |s|
  {
    if s == [] then [] else Reverse(s[1..]) + [s[0]]
  }

  lemma {:induction false} ReverseConcat<T>(a: seq<T>, b: seq<T>)
    ensures Reverse(a + b) == Reverse(b) + Reverse(a)
  {
    if a == [] {
      assert a + b == b;
    } else {
      ReverseConcat(a[1..], b);
      assert (a + b)[1..] == a[1..] + b;
    }
  }

  lemma {:induction false} ReverseMultiset<T>(s: seq<T>)
    ensures multiset(Reverse(s)) == multiset(s)
  {
    if s != [] {
      ReverseMultiset(s[1..]);
      assert s == [s[0]] + s[1..];
    }
  }

  predicate Distinct<T(==)>(s: seq<T>) {
    forall i, j :: 0 <= i < j < |s| ==> s[i] != s[j]
  }

  /** list_del of the element `x`. */
  function Without(list: seq<nat>, x: nat): seq<nat> {
    if list == [] then [] else if list[0] == x then list[1..] else [list[0]] + Without(list[1..], x)
  }

  lemma {:induction false} WithoutIs(list: seq<nat>, x: nat)
    requires Distinct(list)
    ensures Distinct(Without(list, x))
    ensures forall y :: y in Without(list, x) <==> y in list && y != x
  {
    if list != [] {
      var rest := list[1..];
      HeadOnce(list);
      WithoutIs(rest, x);
      if list[0] != x {
        hide Distinct;
        DistinctCons(list[0], Without(rest, x));
      }
    }
  }

  lemma HeadOnce(list: seq<nat>)
    requires list != [] && Distinct(list)
    ensures Distinct(list[1..]) && list[0] !in list[1..]
    ensures forall y :: y in list <==> y == list[0] || y in list[1..]
  {
    assert list == [list[0]] + list[1..];
  }

  lemma DistinctCons(x: nat, s: seq<nat>)
    requires Distinct(s) && x !in s
    ensures Distinct([x] + s)
  {
  }

  /** The first free descriptor, or the length of the table. */
  function FirstFree(fds: seq<Option<nat>>): (i: nat)
    ensures i <= |fds| && (i < |fds| ==> fds[i] == None)
    ensures forall j :: 0 <= j < i ==> fds[j] != None
  {
    if fds == [] || fds[0] == None then 0 else 1 + FirstFree(fds[1..])
  }

  /** The search for a free descriptor, tcp.c:215-216 and udp.c:50-51. */
  method FindFree(fds: seq<Option<nat>>) returns (i: nat)
    ensures i == FirstFree(fds)
  {
    i := 0;
    while i < |fds| && fds[i] != None
      invariant i <= |fds| && FirstFree(fds) == i + FirstFree(fds[i..])
    {
      i := i + 1;
    }
  }
}
