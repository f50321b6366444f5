/** Tables of address ranges, as the heap keeps them (mem_t in kernel/memory/memory.h). */
module Spans {

  /** The bytes addr, ..., addr + size - 1; an entry of size 0 is an empty slot. */
  datatype Span = Span(addr: nat, size: nat) {
    function End(): nat {
      addr + size
    }
  }

  /** 1 if the byte belongs to the span, else 0. */
  function In(b: nat, x: Span): nat {
    if x.addr <= b < x.End() then 1 else 0
  }

  /** How many spans of a table a byte belongs to. */
  function Cover(b: nat, s: seq<Span>): nat {
    if s == [] then 0 else Cover(b, s[..|s| - 1]) + In(b, s[|s| - 1])
  }

  /** The bytes a table holds. */
  function Total(s: seq<Span>): nat {
    if s == [] then 0 else Total(s[..|s| - 1]) + s[|s| - 1].size
  }

  /** How many slots are not empty. */
  function Count(s: seq<Span>): nat {
    if s == [] then 0 else Count(s[..|s| - 1]) + (if s[|s| - 1].size > 0 then 1 else 0)
  }

  lemma {:induction false} CoverUpdate(b: nat, s: seq<Span>, i: nat, x: Span)
    requires i < |s|
    ensures Cover(b, s[i := x]) == Cover(b, s) - In(b, s[i]) + In(b, x)
  {
    var t := s[i := x];
    if i < |s| - 1 {
      assert t[..|t| - 1] == s[..|s| - 1][i := x];
      CoverUpdate(b, s[..|s| - 1], i, x);
    } else {
      assert t[..|t| - 1] == s[..|s| - 1];
    }
  }

  lemma {:induction false} TotalUpdate(s: seq<Span>, i: nat, x: Span)
    requires i < |s|
    ensures Total(s[i := x]) == Total(s) - s[i].size + x.size
  {
    var t := s[i := x];
    if i < |s| - 1 {
      assert t[..|t| - 1] == s[..|s| - 1][i := x];
      TotalUpdate(s[..|s| - 1], i, x);
    } else {
      assert t[..|t| - 1] == s[..|s| - 1];
    }
  }

  lemma {:induction false} CountUpdate(s: seq<Span>, i: nat, x: Span)
    requires i < |s|
    ensures Count(s[i := x]) == Count(s) - (if s[i].size > 0 then 1 else 0) + (if x.size > 0 then 1 else 0)
  {
    var t := s[i := x];
    if i < |s| - 1 {
      assert t[..|t| - 1] == s[..|s| - 1][i := x];
      CountUpdate(s[..|s| - 1], i, x);
    } else {
      assert t[..|t| - 1] == s[..|s| - 1];
    }
  }

  lemma CoverAppend(b: nat, s: seq<Span>, x: Span)
    ensures Cover(b, s + [x]) == Cover(b, s) + In(b, x)
    ensures Total(s + [x]) == Total(s) + x.size
  {
    assert (s + [x])[..|s|] == s;
  }

  lemma CoverAtLeast(b: nat, s: seq<Span>, i: nat)
    requires i < |s|
    ensures In(b, s[i]) <= Cover(b, s)
  {
    CoverUpdate(b, s, i, Span(0, 0));
  }

  /** A byte of two different entries is counted twice. */
  lemma CoverTwice(b: nat, s: seq<Span>, i: nat, j: nat)
    requires i < |s| && j < |s| && i != j
    ensures In(b, s[i]) + In(b, s[j]) <= Cover(b, s)
  {
    CoverUpdate(b, s, i, Span(0, 0));
    CoverAtLeast(b, s[i := Span(0, 0)], j);
  }

  lemma {:induction false} Covered(b: nat, s: seq<Span>) returns (i: nat)
    requires Cover(b, s) > 0
    ensures i < |s| && In(b, s[i]) == 1
  {
    if In(b, s[|s| - 1]) == 1 {
      i := |s| - 1;
    } else {
      i := Covered(b, s[..|s| - 1]);
    }
  }

  lemma {:induction false} EmptyTable(n: nat, b: nat)
    ensures Cover(b, seq(n, _ => Span(0, 0))) == 0
    ensures Total(seq(n, _ => Span(0, 0))) == 0
  {
    if n > 0 {
      assert seq(n, _ => Span(0, 0))[..n - 1] == seq(n - 1, _ => Span(0, 0));
      EmptyTable(n - 1, b);
    }
  }

  // ----- slot searches -----

  /** The first slot from i on that holds at least `size` bytes; |s| if there is none. */
  function FirstFit(s: seq<Span>, size: nat, i: nat): (r: nat)
    requires i <= |s|
    ensures i <= r <= |s|
    ensures r < |s| ==> s[r].size >= size
    ensures forall k :: i <= k < r ==> s[k].size < size
    decreases |s| - i
  {
    if i == |s| || s[i].size >= size then i else FirstFit(s, size, i + 1)
  }

  /** The first empty slot from i on; |s| if there is none. */
  function FirstEmpty(s: seq<Span>, i: nat): (r: nat)
    requires i <= |s|
    ensures i <= r <= |s|
    ensures r < |s| ==> s[r].size == 0
    ensures forall k :: i <= k < r ==> s[k].size != 0
    decreases |s| - i
  {
    if i == |s| || s[i].size == 0 then i else FirstEmpty(s, i + 1)
  }

  /** The first slot from i on with the given address; |s| if there is none. */
  function FirstAt(s: seq<Span>, addr: nat, i: nat): (r: nat)
    requires i <= |s|
    ensures i <= r <= |s|
    ensures r < |s| ==> s[r].addr == addr
    ensures forall k :: i <= k < r ==> s[k].addr != addr
    decreases |s| - i
  {
    if i == |s| || s[i].addr == addr then i else FirstAt(s, addr, i + 1)
  }

  /** The span starts where the other ends, or ends where it starts. */
  predicate Touches(x: Span, y: Span) {
    x.End() == y.addr || x.addr == y.End()
  }

  /** The first slot from i on that touches a span; |s| if there is none. */
  function FirstTouching(s: seq<Span>, x: Span, i: nat): (r: nat)
    requires i <= |s|
    ensures i <= r <= |s|
    ensures r < |s| ==> Touches(x, s[r])
    ensures forall k :: i <= k < r ==> !Touches(x, s[k])
    decreases |s| - i
  {
    if i == |s| || Touches(x, s[i]) then i else FirstTouching(s, x, i + 1)
  }
}
