/**
 The state main keeps across records and the procedures that update it in place: the list
 reachable from `first`, the IsEmpty flag, and the values[100] scratch array. A node pointer
 is an index into the list; the index |table| stands for NULL.
 */
module Bridge {
  import opened Wrappers
  import opened MacTable
  import opened Forwarding
  import opened Records

  class BridgeState {
    /** The entries of the list from `first`, in list order. */
    var table: seq<Entry>
    /** main's IsEmpty: set at start, cleared by the first learning call, never set again. */
    var isEmpty: bool
    /** main's values[100]. */
    var values: array<int>

    ghost predicate Valid()
      reads this
    {
      values.Length == ValuesSize && Unique(table) && (isEmpty ==> table == [])
    }

    /** main's start: an empty table, IsEmpty set, values[] zeroed. */
    constructor ()
      ensures Valid() && fresh(values)
      ensures table == [] && isEmpty && values[..] == seq(ValuesSize, _ => 0)
    {
      table := [];
      isEmpty := true;
      values := new int[ValuesSize](_ => 0);
    }

    /** learning: the first call builds a one-entry list; later calls walk from the head,
        refresh a known sender in place or link a new entry after the tail. Once IsEmpty is
        cleared the head must exist: with an empty list the walk never runs and `current->next`
        dereferences NULL. */
    method Learning(mac: string, port: int, now: int)
      requires Valid()
      requires isEmpty || table != []
      modifies this
      ensures Valid() && !isEmpty && values == old(values)
      ensures table == Learned(old(isEmpty), old(table), mac, port, now)
    {
      if isEmpty {
        table := [Entry(mac, port, now)];
        isEmpty := false;
        return;
      }
      var current := 0;
      while current < |table|
        invariant 0 <= current < |table|
        invariant forall j :: 0 <= j < current ==> table[j].mac != mac
        invariant table == old(table) && isEmpty == old(isEmpty)
      {
        if table[current].mac == mac {
          if table[current].port != port {
            table := table[current := table[current].(port := port)];
          }
          table := table[current := table[current].(timestamp := now)];
          assert IndexOf(old(table), mac) == current;
          LearnKeepsUnique(old(table), mac, port, now);
          return;
        }
        if current + 1 == |table| {
          break;
        }
        current := current + 1;
      }
      table := table + [Entry(mac, port, now)];
      LearnKeepsUnique(old(table), mac, port, now);
    }

    /** remove: unlinks the successor of `current` and returns the new successor; does
        nothing and returns `current` when `current` or its successor is NULL. */
    method Remove(current: nat) returns (next: nat)
      requires current <= |table|
      modifies this
      ensures isEmpty == old(isEmpty) && values == old(values)
      ensures next <= |table|
      ensures if current == |old(table)| || current + 1 == |old(table)|
              then table == old(table) && next == current
              else table == old(table)[..current + 1] + old(table)[current + 2..] && next == current + 1
    {
      if current == |table| || current + 1 == |table| {
        return current;
      }
      table := table[..current + 1] + table[current + 2..];
      return current + 1;
    }

    /** cleanList with one clock reading `now`: tests the head once, then walks keeping
        `current` and splicing out an expired successor, returning the number evicted. */
    method CleanList(now: int) returns (evicted: nat)
      requires Valid()
      modifies this
      ensures Valid() && isEmpty == old(isEmpty) && values == old(values)
      ensures table == Sweep(old(table), now)
      ensures evicted == |old(table)| - |table|
    {
      if table == [] {
        return 0;
      }
      evicted := 0;
      var current: nat := 0;
      if Expired(table[0], now) {
        table := table[1..];
        evicted := 1;
        current := 0;
      }
      while current < |table| && current + 1 < |table|
        invariant current <= |table|
        invariant Sweep(old(table), now) == table[..current] + Walk(table[current..], now)
        invariant evicted + |table| == |old(table)|
        invariant isEmpty == old(isEmpty) && values == old(values)
        decreases |table| - current
      {
        if Expired(table[current + 1], now) {
          WalkSplice(table, now, current);
          current := Remove(current);
          evicted := evicted + 1;
        } else {
          WalkAdvance(table, now, current);
          current := current + 1;
        }
      }
      assert table[..current] + table[current..] == table;
      SweepKeepsUnique(old(table), now);
    }

    /** One accepted record: learn the sender, decide against the table as learning left it,
        then sweep. With one clock reading `now` for the whole record, the sender's entry,
        stamped `now`, always survives the sweep, so the table is never empty afterwards and
        the next learning call never meets a NULL head. */
    method Step(sender: string, port: int, receiver: string, now: int) returns (d: Decision)
      requires Valid()
      requires isEmpty || table != []
      requires sender != receiver ==> FitsValues(Learned(isEmpty, table, sender, port, now), receiver)
      modifies this, values
      ensures Valid() && !isEmpty && values == old(values)
      ensures d == Decide(sender, port, receiver, Learned(old(isEmpty), old(table), sender, port, now))
      ensures table == Sweep(Learned(old(isEmpty), old(table), sender, port, now), now)
      ensures Entry(sender, port, now) in table
      ensures sender == receiver ==> values[..] == old(values[..])
      ensures sender != receiver ==>
        values[..] == Scratch(Learned(old(isEmpty), old(table), sender, port, now), receiver)
    {
      ghost var learned := Learned(isEmpty, table, sender, port, now);
      Learning(sender, port, now);
      d := Filtering(sender, port, receiver, table, values);
      LearnedKeepsSender(old(isEmpty), old(table), sender, port, now);
      var _ := CleanList(now);
    }

    /** The body of main's loop for one line read: a rejected line changes nothing; an
        accepted one is a Step, then the table would be printed. */
    method ProcessLine(line: string, now: int) returns (d: Option<Decision>)
      requires Valid()
      requires ParseRecord(line).Some? ==> isEmpty || table != []
      requires ParseRecord(line).Some? && ParseRecord(line).value.sender != ParseRecord(line).value.receiver ==>
        FitsValues(Learned(isEmpty, table, ParseRecord(line).value.sender, ParseRecord(line).value.port, now),
                   ParseRecord(line).value.receiver)
      modifies this, values
      ensures Valid() && values == old(values)
      ensures ParseRecord(line).None? ==>
        d == None && table == old(table) && isEmpty == old(isEmpty) && values[..] == old(values[..])
      ensures ParseRecord(line).Some? ==>
        var r := ParseRecord(line).value;
        var learned := Learned(old(isEmpty), old(table), r.sender, r.port, now);
        d == Some(Decide(r.sender, r.port, r.receiver, learned))
        && table == Sweep(learned, now) && !isEmpty && table != []
        && (r.sender == r.receiver ==> values[..] == old(values[..]))
        && (r.sender != r.receiver ==> values[..] == Scratch(learned, r.receiver))
    {
      var rec := ValidateRecord(line);
      if rec.None? {
        return None;
      }
      var decision := Step(rec.value.sender, rec.value.port, rec.value.receiver, now);
      d := Some(decision);
    }
  }

  /** The learned sender, stamped `now`, is on the table after learning and after the sweep
      that follows it in the same record. */
  lemma LearnedKeepsSender(isEmpty: bool, t: seq<Entry>, mac: string, port: int, now: int)
    ensures Entry(mac, port, now) in Learned(isEmpty, t, mac, port, now)
    ensures Entry(mac, port, now) in Sweep(Learned(isEmpty, t, mac, port, now), now)
  {
    var r := Learned(isEmpty, t, mac, port, now);
    var e := Entry(mac, port, now);
    var k: nat := if isEmpty then 0 else if IndexOf(t, mac) < |t| then IndexOf(t, mac) else |t|;
    assert k < |r| && r[k] == e;
    assert !Expired(e, now);
    SweepKeepsFresh(r, now);
  }

  /** With separate clock readings, the sender's own entry can go in the same record: a
      one-entry table stamped t1 is emptied by a sweep at a time more than 300 seconds later,
      after which IsEmpty stays cleared over an empty list. */
  lemma SweepCanEmptyNewTable(mac: string, port: int, t1: int, t2: int)
    requires t2 > t1 + AgeingTime
    ensures Sweep(Learned(true, [], mac, port, t1), t2) == []
  {
  }

  // ---------------------------------------------------------------- the three records of the output example

  const MacA := "00:1A:2B:3C:4D:5E"
  const MacB := "02:1A:2B:3C:4D:5E"
  const MacC := "01:1A:2B:3C:4D:5E"
  const MacD := "03:1A:2B:3C:4D:5E"
  /** The lines "00:1A:2B:3C:4D:5E,1000,01:1A:2B:3C:4D:5E" and
      "02:1A:2B:3C:4D:5E,2000,01:1A:2B:3C:4D:5E". */
  const LineOne := MacA + "," + "1000" + "," + MacC
  const LineTwo := MacB + "," + "2000" + "," + MacC

  lemma ExampleMacFields()
    ensures MacField(MacA) && MacField(MacB) && MacField(MacC) && MacField(MacD)
  {
    assert forall i :: 0 <= i < MacLength ==> MacCharOk(MacA[i], i);
    assert forall i :: 0 <= i < MacLength ==> MacCharOk(MacB[i], i);
    assert forall i :: 0 <= i < MacLength ==> MacCharOk(MacD[i], i);
  }

  lemma ExamplePorts()
    ensures Atoi("1000") == 1000 && Atoi("2000") == 2000
  {
    var s, u := "1000", "2000";
    assert SkipSpaces(s, 0) == 0 && SkipSpaces(u, 0) == 0;
    assert Digits(s, 4, 1000) == 1000 && Digits(u, 4, 2000) == 2000;
    assert Digits(s, 3, 100) == 1000 && Digits(u, 3, 200) == 2000;
    assert Digits(s, 2, 10) == 1000 && Digits(u, 2, 20) == 2000;
    assert Digits(s, 1, 1) == 1000 && Digits(u, 1, 2) == 2000;
    assert Digits(s, 0, 0) == 1000 && Digits(u, 0, 0) == 2000;
  }

  /** A line "<mac>,<4 non-commas>,<mac>" with two valid MACs is accepted, the port being
      atoi of the middle field. */
  lemma ExampleLineAccepted(line: string, sender: string, field: string, receiver: string)
    requires |field| == 4 && MacField(sender) && MacField(receiver)
    requires forall k :: 0 <= k < 4 ==> field[k] != ','
    requires line == sender + "," + field + "," + receiver
    ensures ParseRecord(line) == Some(Record(sender, Atoi(field), receiver))
  {
    assert line[..17] == sender;
    assert line[23..] == receiver;
    assert line[18..22] == field;
    assert PortSpan(line, 18, 22);
    ParseRecordComplete(line, 18, 22);
  }

  lemma LineOneAccepted()
    ensures ParseRecord(LineOne) == Some(Record(MacA, 1000, MacC))
  {
    ExamplePorts();
    ExampleMacFields();
    ExampleLineAccepted(LineOne, MacA, "1000", MacC);
  }

  lemma LineTwoAccepted()
    ensures ParseRecord(LineTwo) == Some(Record(MacB, 2000, MacC))
  {
    ExamplePorts();
    ExampleMacFields();
    ExampleLineAccepted(LineTwo, MacB, "2000", MacC);
  }

  lemma ExampleMacsDiffer()
    ensures MacA != MacC && MacB != MacC && MacA != MacB && MacD != MacA && MacD != MacB
  {
    assert MacA[1] != MacC[1] && MacB[1] != MacC[1] && MacA[1] != MacB[1];
    assert MacD[1] != MacA[1] && MacD[1] != MacB[1];
  }

  /** The first record of the run: the table holds only the sender, so a frame for MacC has no
      target, and the sweep at time 0 keeps the entry. */
  lemma FirstRecordScenario()
    ensures Learned(true, [], MacA, 1000, 0) == [Entry(MacA, 1000, 0)]
    ensures Decide(MacA, 1000, MacC, [Entry(MacA, 1000, 0)]) == NoTarget
    ensures Sweep([Entry(MacA, 1000, 0)], 0) == [Entry(MacA, 1000, 0)]
  {
    ExampleMacsDiffer();
  }

  /** The second record of the run, at time 10: MacB is appended after MacA, the frame for the
      unknown MacC is broadcast to port 1000 only, and both entries survive the sweep. */
  lemma SecondRecordScenario()
    ensures var t2 := Learned(false, [Entry(MacA, 1000, 0)], MacB, 2000, 10);
      t2 == [Entry(MacA, 1000, 0), Entry(MacB, 2000, 10)]
      && Decide(MacB, 2000, MacC, t2) == Broadcast([1000])
      && Sweep(t2, 10) == t2
  {
    ExampleMacsDiffer();
    var t1 := [Entry(MacA, 1000, 0)];
    assert IndexOf(t1, MacB) == 1;
    var t2 := Learned(false, t1, MacB, 2000, 10);
    assert t2 == [Entry(MacA, 1000, 0), Entry(MacB, 2000, 10)];
    SecondRecordBroadcast(t2);
    assert Walk(t2, 10) == [t2[0]] + Walk(t2[1..], 10);
  }

  lemma SecondRecordBroadcast(t2: seq<Entry>)
    requires t2 == [Entry(MacA, 1000, 0), Entry(MacB, 2000, 10)]
    ensures Decide(MacB, 2000, MacC, t2) == Broadcast([1000])
  {
    ExampleMacsDiffer();
    DecideBroadcast(MacB, 2000, MacC, t2);
    assert Ports(t2) == [1000, 2000];
    assert UntilZero([1000, 2000]) == [1000, 2000];
    assert Without([1000, 2000], 2000) == [1000];
  }

  lemma LineThreeAccepted()
    ensures ParseRecord(MacD + "," + "3000" + "," + MacD) == Some(Record(MacD, 3000, MacD))
  {
    var u := "3000";
    assert SkipSpaces(u, 0) == 0;
    assert Digits(u, 4, 3000) == 3000 && Digits(u, 3, 300) == 3000 && Digits(u, 2, 30) == 3000;
    assert Digits(u, 1, 3) == 3000 && Digits(u, 0, 0) == 3000;
    ExampleMacFields();
    ExampleLineAccepted(MacD + "," + "3000" + "," + MacD, MacD, "3000", MacD);
  }

  /** The third record of the run, at time 20, is addressed by MacD to itself: the frame is
      ignored, yet MacD is still learned after the two earlier entries, and all three entries
      survive the sweep. */
  lemma ThirdRecordScenario()
    ensures var t2 := [Entry(MacA, 1000, 0), Entry(MacB, 2000, 10)];
      var t3 := Learned(false, t2, MacD, 3000, 20);
      t3 == t2 + [Entry(MacD, 3000, 20)]
      && Decide(MacD, 3000, MacD, t3) == Ignored
      && Sweep(t3, 20) == t3
  {
    ExampleMacsDiffer();
    var t2 := [Entry(MacA, 1000, 0), Entry(MacB, 2000, 10)];
    assert IndexOf(t2, MacD) == 2;
    var t3 := Learned(false, t2, MacD, 3000, 20);
    assert t3 == [Entry(MacA, 1000, 0), Entry(MacB, 2000, 10), Entry(MacD, 3000, 20)];
    assert Walk(t3[2..], 20) == t3[2..];
    assert Walk(t3[1..], 20) == [t3[1]] + Walk(t3[2..], 20);
    assert Walk(t3, 20) == [t3[0]] + Walk(t3[1..], 20);
  }

  const OddMac := "0@:1A:2B:3C:4D:5E"
  const LowerMac := "00:1a:2B:3C:4D:5E"

  /** The hex test is an ASCII range from '0' to 'F': a sender written with '@' in a hex
      position is accepted. */
  lemma HexCheckAcceptsAt()
    ensures ParseRecord(OddMac + "," + "1000" + "," + MacC) == Some(Record(OddMac, 1000, MacC))
  {
    assert MacField(OddMac) by {
      assert forall i :: 0 <= i < MacLength ==> MacCharOk(OddMac[i], i);
    }
    ExamplePorts();
    ExampleLineAccepted(OddMac + "," + "1000" + "," + MacC, OddMac, "1000", MacC);
  }

  /** A sender written in lower case is refused. */
  lemma HexCheckRefusesLowerCase()
    ensures ParseRecord(LowerMac + "," + "1000" + "," + MacC) == None
  {
    var lower := LowerMac + "," + "1000" + "," + MacC;
    assert lower[4] == 'a';
    BadSenderCharRejected(lower, 4);
  }

  lemma ExampleSmallPorts()
    ensures Atoi("0000") == 0 && Atoi("-001") == -1
  {
    var z, m := "0000", "-001";
    assert SkipSpaces(z, 0) == 0 && SkipSpaces(m, 0) == 0;
    assert Digits(z, 4, 0) == 0 && Digits(z, 3, 0) == 0 && Digits(z, 2, 0) == 0;
    assert Digits(z, 1, 0) == 0 && Digits(z, 0, 0) == 0;
    assert Digits(m, 4, 1) == 1 && Digits(m, 3, 0) == 1 && Digits(m, 2, 0) == 1;
    assert Digits(m, 1, 0) == 1;
  }

  /** No check rejects a port that is not positive: "0000" is read as port 0 and the line is
      accepted. */
  lemma ZeroPortAccepted()
    ensures ParseRecord(MacA + "," + "0000" + "," + MacC) == Some(Record(MacA, 0, MacC))
  {
    ExampleMacFields();
    ExampleSmallPorts();
    ExampleLineAccepted(MacA + "," + "0000" + "," + MacC, MacA, "0000", MacC);
  }

  /** Likewise "-001" is read as port -1 and the line is accepted. */
  lemma NegativePortAccepted()
    ensures ParseRecord(MacA + "," + "-001" + "," + MacC) == Some(Record(MacA, -1, MacC))
  {
    ExampleMacFields();
    ExampleSmallPorts();
    ExampleLineAccepted(MacA + "," + "-001" + "," + MacC, MacA, "-001", MacC);
  }

  /** The decision is taken before the sweep: a receiver whose entry expires during this
      record is still forwarded to, and only then evicted. */
  lemma ExpiredReceiverStillForwarded(a: string, b: string, now: int)
    requires a != b
    ensures var t := Learned(false, [Entry(a, 1, now), Entry(b, 2, now - 301)], a, 1, now);
      Decide(a, 1, b, t) == ForwardTo(2) && Sweep(t, now) == [Entry(a, 1, now)]
  {
    var t0 := [Entry(a, 1, now), Entry(b, 2, now - 301)];
    assert IndexOf(t0, a) == 0;
    var t := Learned(false, t0, a, 1, now);
    assert t == t0;
    DecideForward(a, 1, b, t, 1);
    assert Expired(t0[1], now) && t0[2..] == [];
    assert Walk(t0, now) == [t0[0]] + Walk([], now);
  }
}
