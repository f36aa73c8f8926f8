/**
 The forwarding decision: searchPort's return codes and the ports it leaves in main's
 values[100] scratch array, and the decision filtering takes from them.
 */
module Forwarding {
  import opened MacTable

  /** What filtering reports for one frame. Broadcast carries the ports, in order, it lists. */
  datatype Decision = Ignored | ForwardTo(port: int) | Broadcast(ports: seq<int>) | NoTarget

  /** Length of main's values[] array. */
  const ValuesSize := 100

  /** searchPort writes one port per entry it passes; values[] must have room for them. */
  ghost predicate FitsValues(t: seq<Entry>, receiver: string)
  {
    IndexOf(t, receiver) <= ValuesSize
  }

  /** The ports of t, in table order. */
  function Ports(t: seq<Entry>): seq<int>
  {
    seq(|t|, i requires 0 <= i < |t| => t[i].port)
  }

  /** searchPort's return value: -2 for a one-entry list before any comparison, else the port of
      the first entry whose MAC is `receiver`, else -1. The head must exist (searchPort reads
      `first->next`). */
  function SearchCode(t: seq<Entry>, receiver: string): int
    requires t != []
  {
    if |t| == 1 then -2
    else if IndexOf(t, receiver) < |t| then t[IndexOf(t, receiver)].port
    else -1
  }

  /** The ports searchPort writes to values[0..), one per entry it passes before it stops. */
  function Passed(t: seq<Entry>, receiver: string): seq<int>
    requires t != []
  {
    if |t| == 1 then [] else Ports(t[..IndexOf(t, receiver)])
  }

  /** values[] after filtering zeroed it and searchPort wrote the passed ports. */
  function Scratch(t: seq<Entry>, receiver: string): seq<int>
    requires t != [] && |Passed(t, receiver)| <= ValuesSize
  {
    Passed(t, receiver) + seq(ValuesSize - |Passed(t, receiver)|, _ => 0)
  }

  /** The ports before the first 0: the broadcast loop stops at a zero slot. */
  function UntilZero(s: seq<int>): (r: seq<int>)
    ensures r <= s
    ensures 0 !in r
    ensures |r| < |s| ==> s[|r|] == 0
  {
    if s == [] || s[0] == 0 then [] else [s[0]] + UntilZero(s[1..])
  }

  /** s without the occurrences of x, other elements (duplicates included) kept in order. */
  function Without(s: seq<int>, x: int): (r: seq<int>)
    ensures |r| <= |s|
    ensures forall y :: y in r <==> y in s && y != x
  {
    if s == [] then [] else (if s[0] == x then [] else [s[0]]) + Without(s[1..], x)
  }

  /** filtering: a self-addressed frame is ignored without a lookup; otherwise a non-negative
      code forwards to that port (even the ingress port), -1 broadcasts the passed ports up to
      the first 0 except the ingress port, and any other code means no target. */
  function Decide(sender: string, port: int, receiver: string, t: seq<Entry>): Decision
    requires sender == receiver || t != []
  {
    if sender == receiver then Ignored
    else
      var p := SearchCode(t, receiver);
      if p >= 0 then ForwardTo(p)
      else if p == -1 then Broadcast(Without(UntilZero(Passed(t, receiver)), port))
      else NoTarget
  }

  // ---------------------------------------------------------------- helper facts

  lemma {:induction false} UntilZeroAppend(a: seq<int>, b: seq<int>)
    ensures UntilZero(a + b) == if 0 in a then UntilZero(a) else a + UntilZero(b)
  {
    if a == [] {
      assert a + b == b;
    } else {
      assert (a + b)[0] == a[0];
      assert (a + b)[1..] == a[1..] + b;
      UntilZeroAppend(a[1..], b);
      if a[0] != 0 {
        assert a == [a[0]] + a[1..];
        assert 0 in a <==> 0 in a[1..];
      }
    }
  }

  /** UntilZero stops exactly at the first zero. */
  lemma UntilZeroIsPrefix(s: seq<int>, i: nat)
    requires i <= |s|
    requires forall j :: 0 <= j < i ==> s[j] != 0
    requires i == |s| || s[i] == 0
    ensures UntilZero(s) == s[..i]
  {
    var r := UntilZero(s);
    if |r| < i {
      assert s[|r|] == 0;
    }
  }

  /** The zero padding after the passed ports does not change where the first zero is. */
  lemma PaddingUntilZero(passed: seq<int>)
    requires |passed| <= ValuesSize
    ensures UntilZero(passed + seq(ValuesSize - |passed|, _ => 0)) == UntilZero(passed)
  {
    var zeros := seq(ValuesSize - |passed|, _ => 0);
    UntilZeroAppend(passed, zeros);
    if zeros == [] {
      assert passed + zeros == passed;
    } else {
      assert UntilZero(zeros) == [];
    }
  }

  lemma {:induction false} WithoutSnoc(s: seq<int>, y: int, x: int)
    ensures Without(s + [y], x) == Without(s, x) + (if y == x then [] else [y])
  {
    if s != [] {
      assert (s + [y])[1..] == s[1..] + [y];
      WithoutSnoc(s[1..], y, x);
    }
  }

  // ---------------------------------------------------------------- decision properties

  /** A self-addressed frame is ignored, whatever the table holds, and only such a frame is. */
  lemma DecideIgnored(sender: string, port: int, receiver: string, t: seq<Entry>)
    requires sender == receiver || t != []
    ensures Decide(sender, port, receiver, t) == Ignored <==> sender == receiver
  {
  }

  /** A one-entry table gives NoTarget for any other receiver, even the MAC of that entry. */
  lemma DecideSingleEntry(sender: string, port: int, receiver: string, e: Entry)
    requires sender != receiver
    ensures Decide(sender, port, receiver, [e]) == NoTarget
  {
  }

  /** With two or more entries, the first entry holding the receiver decides: its port, when
      non-negative, is forwarded to, even when it is the ingress port. */
  lemma DecideForward(sender: string, port: int, receiver: string, t: seq<Entry>, i: nat)
    requires sender != receiver && |t| >= 2
    requires i < |t| && t[i].mac == receiver
    requires forall j :: 0 <= j < i ==> t[j].mac != receiver
    requires t[i].port >= 0
    ensures Decide(sender, port, receiver, t) == ForwardTo(t[i].port)
  {
    assert IndexOf(t, receiver) == i;
  }

  /** A matched entry whose port is negative is not forwarded to: port -1 reads as "not found"
      and broadcasts the ports of the entries before it, lower ports give NoTarget. */
  lemma DecideNegativeMatch(sender: string, port: int, receiver: string, t: seq<Entry>, i: nat)
    requires sender != receiver && |t| >= 2
    requires i < |t| && t[i].mac == receiver
    requires forall j :: 0 <= j < i ==> t[j].mac != receiver
    requires t[i].port < 0
    ensures t[i].port == -1 ==>
      Decide(sender, port, receiver, t) == Broadcast(Without(UntilZero(Ports(t[..i])), port))
    ensures t[i].port < -1 ==> Decide(sender, port, receiver, t) == NoTarget
  {
    assert IndexOf(t, receiver) == i;
  }

  /** An unknown receiver in a table of two or more entries is broadcast to the table's ports
      in order, cut at the first 0 port, without the ingress port (duplicates kept). The list
      never holds the ingress port or 0, holds only ports of the table, and, when no port is
      0, every port of the table other than the ingress port. */
  lemma DecideBroadcast(sender: string, port: int, receiver: string, t: seq<Entry>)
    requires sender != receiver && |t| >= 2
    requires forall i :: 0 <= i < |t| ==> t[i].mac != receiver
    ensures Decide(sender, port, receiver, t) == Broadcast(Without(UntilZero(Ports(t)), port))
    ensures var b := Decide(sender, port, receiver, t).ports;
      port !in b && 0 !in b
      && (forall x :: x in b ==> exists i :: 0 <= i < |t| && t[i].port == x)
      && ((forall i :: 0 <= i < |t| ==> t[i].port != 0) ==>
            forall i :: 0 <= i < |t| && t[i].port != port ==> t[i].port in b)
  {
    assert IndexOf(t, receiver) == |t|;
    assert t[..|t|] == t;
    var ps := Ports(t);
    var b := Without(UntilZero(ps), port);
    forall x | x in b
      ensures exists i :: 0 <= i < |t| && t[i].port == x
    {
      assert x in UntilZero(ps);
      assert x in ps;
      var i :| 0 <= i < |ps| && ps[i] == x;
      assert t[i].port == x;
    }
    if forall i :: 0 <= i < |t| ==> t[i].port != 0 {
      UntilZeroIsPrefix(ps, |ps|);
      assert ps[..|ps|] == ps;
      forall i | 0 <= i < |t| && t[i].port != port
        ensures t[i].port in b
      {
        assert ps[i] == t[i].port;
      }
    }
  }

  // ---------------------------------------------------------------- the two procedures

  /** searchPort: walks the list from the head, returning the port of the first entry whose
      MAC is `receiver` and writing the port of every entry it passes to values[i++]. The
      caller's array must have room for every port written. */
  method SearchPort(t: seq<Entry>, receiver: string, values: array<int>) returns (p: int)
    requires t != []
    requires values.Length == ValuesSize
    requires FitsValues(t, receiver)
    modifies values
    ensures p == SearchCode(t, receiver)
    ensures var n := |Passed(t, receiver)|;
      n <= ValuesSize && values[..n] == Passed(t, receiver) && values[n..] == old(values[n..])
  {
    if |t| == 1 {
      return -2;
    }
    ghost var before := values[..];
    var current := 0;
    var i := 0;
    while current < |t|
      invariant 0 <= current <= |t| && i == current
      invariant current <= IndexOf(t, receiver)
      invariant values[..i] == Ports(t[..current])
      invariant forall j :: i <= j < values.Length ==> values[j] == before[j]
    {
      if t[current].mac == receiver {
        assert IndexOf(t, receiver) == current;
        assert values[i..] == before[i..];
        return t[current].port;
      }
      values[i] := t[current].port;
      assert t[..current + 1] == t[..current] + [t[current]];
      i := i + 1;
      current := current + 1;
      assert values[..i] == values[..i - 1] + [values[i - 1]];
    }
    assert IndexOf(t, receiver) == |t|;
    assert values[i..] == before[i..];
    return -1;
  }

  /** filtering's broadcast loop: lists values[] in order up to its first 0 slot, skipping
      the ingress port. */
  method BroadcastList(values: array<int>, port: int) returns (ports: seq<int>)
    requires values.Length == ValuesSize
    ensures ports == Without(UntilZero(values[..]), port)
  {
    ports := [];
    var i := 0;
    while i < ValuesSize
      invariant 0 <= i <= ValuesSize
      invariant forall j :: 0 <= j < i ==> values[j] != 0
      invariant ports == Without(values[..i], port)
    {
      if values[i] == 0 {
        break;
      }
      if values[i] != port {
        ports := ports + [values[i]];
      }
      assert values[..i + 1] == values[..i] + [values[i]];
      WithoutSnoc(values[..i], values[i], port);
      i := i + 1;
    }
    UntilZeroIsPrefix(values[..], i);
  }

  /** filtering: decides the frame's fate as Decide does, leaving in values[] the zeroed array
      with the passed ports written over its start, or leaving values[] alone for a
      self-addressed frame. */
  method Filtering(sender: string, port: int, receiver: string, t: seq<Entry>, values: array<int>)
    returns (d: Decision)
    requires values.Length == ValuesSize
    requires sender != receiver ==> t != [] && FitsValues(t, receiver)
    modifies values
    ensures d == Decide(sender, port, receiver, t)
    ensures sender == receiver ==> values[..] == old(values[..])
    ensures sender != receiver ==>
      |Passed(t, receiver)| <= ValuesSize && values[..] == Scratch(t, receiver)
  {
    if sender == receiver {
      return Ignored;
    }
    for i := 0 to ValuesSize
      invariant forall j :: 0 <= j < i ==> values[j] == 0
    {
      values[i] := 0;
    }
    var p := SearchPort(t, receiver, values);
    ghost var passed := Passed(t, receiver);
    assert values[..] == Scratch(t, receiver) by {
      assert values[..] == values[..|passed|] + values[|passed|..];
    }
    if p >= 0 {
      d := ForwardTo(p);
    } else if p == -1 {
      var ports := BroadcastList(values, port);
      PaddingUntilZero(passed);
      d := Broadcast(ports);
    } else {
      d := NoTarget;
    }
  }
}
