/**
 The bridge's MAC address table as values: an entry per learned sender, in list order,
 the learning rule and the ageing sweep. The class in bridge.dfy updates a table in place
 and is proved to follow these functions.
 */
module MacTable {

  /** Seconds after which an entry is stale (AGEING_TIME). */
  const AgeingTime := 300

  /** One node of the list: a sender MAC, the port it was seen on and when it was last seen. */
  datatype Entry = Entry(mac: string, port: int, timestamp: int)

  /** The ageing test of cleanList: strictly older than AgeingTime; exactly AgeingTime is still fresh. */
  predicate Expired(e: Entry, now: int)
  {
    now - e.timestamp > AgeingTime
  }

  /** No MAC appears in two entries. */
  ghost predicate Unique(t: seq<Entry>)
  {
    forall i, j :: 0 <= i < j < |t| ==> t[i].mac != t[j].mac
  }

  /** Position of the first entry holding `mac`, or |t| when none does: where a walk that
      compares MACs from the head stops. */
  function IndexOf(t: seq<Entry>, mac: string): (k: nat)
    ensures k <= |t|
    ensures k < |t| ==> t[k].mac == mac
    ensures forall j :: 0 <= j < k ==> t[j].mac != mac
  {
    if t == [] then 0
    else if t[0].mac == mac then 0
    else 1 + IndexOf(t[1..], mac)
  }

  // ---------------------------------------------------------------- learning

  /** `learning` on a non-empty list: a known sender is refreshed where it stands (its port set
      to `port`, its timestamp to `now`); an unknown one is initialised and linked after the tail. */
  function Learn(t: seq<Entry>, mac: string, port: int, now: int): seq<Entry>
  {
    var k := IndexOf(t, mac);
    if k < |t| then t[k := Entry(mac, port, now)] else t + [Entry(mac, port, now)]
  }

  /** `learning` with main's IsEmpty flag: while the flag is set, the old head is ignored and a
      one-entry list is returned. */
  function Learned(isEmpty: bool, t: seq<Entry>, mac: string, port: int, now: int): seq<Entry>
  {
    if isEmpty then [Entry(mac, port, now)] else Learn(t, mac, port, now)
  }

  /** Learning keeps MACs unique, and afterwards exactly one entry carries `mac`: the one
      holding the given port and the time `now`, at the sender's old position or at the new
      tail. */
  lemma LearnKeepsUnique(t: seq<Entry>, mac: string, port: int, now: int)
    requires Unique(t)
    ensures var r := Learn(t, mac, port, now);
      Unique(r) && IndexOf(r, mac) < |r| && r[IndexOf(r, mac)] == Entry(mac, port, now)
      && IndexOf(r, mac) == (if IndexOf(t, mac) < |t| then IndexOf(t, mac) else |t|)
      && forall i :: 0 <= i < |r| && r[i].mac == mac ==> i == IndexOf(r, mac)
  {
    var r := Learn(t, mac, port, now);
    var k := IndexOf(t, mac);
    assert r[k].mac == mac;
    assert IndexOf(r, mac) == k;
  }

  /** The table grows by one exactly when the sender was not in it, and otherwise keeps its length. */
  lemma LearnLength(t: seq<Entry>, mac: string, port: int, now: int)
    ensures var r := Learn(t, mac, port, now);
      (|r| == |t| + 1 <==> forall i :: 0 <= i < |t| ==> t[i].mac != mac)
      && (|r| == |t| <==> exists i :: 0 <= i < |t| && t[i].mac == mac)
  {
    var k := IndexOf(t, mac);
    if k < |t| {
      assert t[k].mac == mac;
    }
  }

  /** Learning changes nothing else: every old entry keeps its position and MAC, entries of
      other MACs are untouched, and a new MAC is appended after all old entries in order. */
  lemma LearnChangesNothingElse(t: seq<Entry>, mac: string, port: int, now: int)
    ensures var r := Learn(t, mac, port, now);
      |t| <= |r| <= |t| + 1
      && (forall i :: 0 <= i < |t| ==> r[i].mac == t[i].mac)
      && (forall i :: 0 <= i < |t| && t[i].mac != mac ==> r[i] == t[i])
      && (|r| == |t| + 1 ==> r[..|t|] == t && r[|t|] == Entry(mac, port, now))
  {
    var k := IndexOf(t, mac);
    if k < |t| {
      forall i | 0 <= i < |t| && t[i].mac != mac
        ensures Learn(t, mac, port, now)[i] == t[i]
      {
        assert i != k;
      }
    }
  }

  /** The first call (IsEmpty set) yields the one-entry list holding the sender. */
  lemma LearnedFirstCall(t: seq<Entry>, mac: string, port: int, now: int)
    ensures Learned(true, t, mac, port, now) == [Entry(mac, port, now)]
    ensures Unique(Learned(true, t, mac, port, now))
  {
  }

  // ---------------------------------------------------------------- ageing sweep

  /** The loop of cleanList from a `current` entry: `current` itself is kept without being
      tested; when its successor is expired the successor is spliced out and the walk goes on
      from the entry after it (which is thus never tested), otherwise from the successor. */
  function Walk(t: seq<Entry>, now: int): seq<Entry>
    decreases |t|
  {
    if |t| <= 1 then t
    else if Expired(t[1], now) then [t[0]] + Walk(t[2..], now)
    else [t[0]] + Walk(t[1..], now)
  }

  /** One turn of cleanList's loop at position c when the successor is expired: splicing it
      out and moving to the entry after it leaves the outcome unchanged. */
  lemma WalkSplice(t: seq<Entry>, now: int, c: nat)
    requires c + 1 < |t| && Expired(t[c + 1], now)
    ensures var u := t[..c + 1] + t[c + 2..];
      t[..c] + Walk(t[c..], now) == u[..c + 1] + Walk(u[c + 1..], now)
  {
    var u := t[..c + 1] + t[c + 2..];
    assert t[c..][1] == t[c + 1] && t[c..][2..] == t[c + 2..];
    assert Walk(t[c..], now) == [t[c]] + Walk(t[c + 2..], now);
    assert u[..c + 1] == t[..c + 1] == t[..c] + [t[c]];
    assert u[c + 1..] == t[c + 2..];
  }

  /** One turn of cleanList's loop at position c when the successor is fresh: moving to it
      leaves the outcome unchanged. */
  lemma WalkAdvance(t: seq<Entry>, now: int, c: nat)
    requires c + 1 < |t| && !Expired(t[c + 1], now)
    ensures t[..c] + Walk(t[c..], now) == t[..c + 1] + Walk(t[c + 1..], now)
  {
    assert t[c..][1] == t[c + 1] && t[c..][1..] == t[c + 1..];
    assert Walk(t[c..], now) == [t[c]] + Walk(t[c + 1..], now);
    assert t[..c + 1] == t[..c] + [t[c]];
  }

  /** cleanList: the head is tested once, outside the loop; the loop then starts at the
      (possibly new) head. */
  function Sweep(t: seq<Entry>, now: int): seq<Entry>
  {
    if t == [] then []
    else if Expired(t[0], now) then Walk(t[1..], now)
    else Walk(t, now)
  }

  /** Independent description of which entries the sweep removes: entry i is evicted iff it is
      expired and the entry before it was not evicted (an eviction makes the walk skip the
      next entry). In a run of consecutive expired entries, every other one goes. */
  predicate Evicted(t: seq<Entry>, now: int, i: nat)
    requires i < |t|
  {
    Expired(t[i], now) && (i == 0 || !Evicted(t, now, i - 1))
  }

  /** The entries at positions i.. that are not evicted, in table order. */
  function SurvivorsFrom(t: seq<Entry>, now: int, i: nat): seq<Entry>
    requires i <= |t|
    decreases |t| - i
  {
    if i == |t| then []
    else (if Evicted(t, now, i) then [] else [t[i]]) + SurvivorsFrom(t, now, i + 1)
  }

  /** The walk from a position that is not evicted yields exactly the survivors from there. */
  lemma {:induction false} WalkIsSurvivors(t: seq<Entry>, now: int, k: nat)
    requires k <= |t|
    requires k < |t| ==> !Evicted(t, now, k)
    ensures Walk(t[k..], now) == SurvivorsFrom(t, now, k)
    decreases |t| - k
  {
    var s := t[k..];
    if |s| == 0 {
    } else if |s| == 1 {
      assert k + 1 == |t|;
      assert SurvivorsFrom(t, now, k + 1) == [];
    } else {
      assert s[0] == t[k] && s[1] == t[k + 1];
      if Expired(t[k + 1], now) {
        assert Evicted(t, now, k + 1);
        assert s[2..] == t[k + 2..];
        WalkIsSurvivors(t, now, k + 2);
        assert SurvivorsFrom(t, now, k + 1) == SurvivorsFrom(t, now, k + 2);
      } else {
        assert s[1..] == t[k + 1..];
        WalkIsSurvivors(t, now, k + 1);
      }
    }
  }

  /** cleanList removes exactly the evicted entries and keeps the others in their order. */
  lemma SweepIsSurvivors(t: seq<Entry>, now: int)
    ensures Sweep(t, now) == SurvivorsFrom(t, now, 0)
  {
    if t == [] {
    } else if Expired(t[0], now) {
      assert Evicted(t, now, 0);
      if |t| > 1 {
        assert !Evicted(t, now, 1);
      }
      WalkIsSurvivors(t, now, 1);
    } else {
      assert t[0..] == t;
      WalkIsSurvivors(t, now, 0);
    }
  }

  /** An entry that is not evicted is among the survivors. */
  lemma {:induction false} SurvivorsContain(t: seq<Entry>, now: int, i: nat, j: nat)
    requires i <= j < |t| && !Evicted(t, now, j)
    ensures t[j] in SurvivorsFrom(t, now, i)
    decreases j - i
  {
    if i < j {
      SurvivorsContain(t, now, i + 1, j);
    }
  }

  /** Every survivor from position i is an entry at some position at or after i. */
  lemma {:induction false} SurvivorsFromInput(t: seq<Entry>, now: int, i: nat, e: Entry)
    requires i <= |t| && e in SurvivorsFrom(t, now, i)
    ensures exists j :: i <= j < |t| && t[j] == e
    decreases |t| - i
  {
    if i < |t| {
      if e == t[i] && !Evicted(t, now, i) {
      } else {
        SurvivorsFromInput(t, now, i + 1, e);
      }
    }
  }

  /** The survivors of a table with unique MACs have unique MACs. */
  lemma {:induction false} SurvivorsUnique(t: seq<Entry>, now: int, i: nat)
    requires i <= |t| && Unique(t)
    ensures Unique(SurvivorsFrom(t, now, i))
    decreases |t| - i
  {
    if i < |t| {
      SurvivorsUnique(t, now, i + 1);
      var rest := SurvivorsFrom(t, now, i + 1);
      if !Evicted(t, now, i) {
        forall e | e in rest
          ensures e.mac != t[i].mac
        {
          SurvivorsFromInput(t, now, i + 1, e);
        }
        var r := [t[i]] + rest;
        forall a, b | 0 <= a < b < |r|
          ensures r[a].mac != r[b].mac
        {
          if a == 0 {
            assert r[b] in rest;
          } else {
            assert r[a] == rest[a - 1] && r[b] == rest[b - 1];
          }
        }
      }
    }
  }

  /** An entry aged at most AgeingTime (exactly 300 included) survives the sweep. */
  lemma SweepKeepsFresh(t: seq<Entry>, now: int)
    ensures forall i :: 0 <= i < |t| && !Expired(t[i], now) ==> t[i] in Sweep(t, now)
  {
    SweepIsSurvivors(t, now);
    forall i | 0 <= i < |t| && !Expired(t[i], now)
      ensures t[i] in SurvivorsFrom(t, now, 0)
    {
      SurvivorsContain(t, now, 0, i);
    }
  }

  /** Only entries of the table survive, and MAC uniqueness is kept. */
  lemma SweepKeepsUnique(t: seq<Entry>, now: int)
    requires Unique(t)
    ensures Unique(Sweep(t, now))
    ensures forall e :: e in Sweep(t, now) ==> e in t
  {
    SweepIsSurvivors(t, now);
    SurvivorsUnique(t, now, 0);
    forall e | e in Sweep(t, now)
      ensures e in t
    {
      SurvivorsFromInput(t, now, 0, e);
    }
  }

  /** The sweep never removes two neighbours: the entry right after a removed one stays, even
      when it is expired. In particular, after the head is evicted the new head is kept. */
  lemma SweepSkipsAfterEviction(t: seq<Entry>, now: int, i: nat)
    requires i + 1 < |t|
    requires t[i] !in Sweep(t, now)
    ensures Expired(t[i], now)
    ensures t[i + 1] in Sweep(t, now)
  {
    SweepIsSurvivors(t, now);
    if !Evicted(t, now, i) {
      SurvivorsContain(t, now, 0, i);
    }
    assert !Evicted(t, now, i + 1);
    SurvivorsContain(t, now, 0, i + 1);
  }

  /** Head eviction happens at most once per call: when the head is expired, the second entry
      becomes the first entry of the result whatever its age. */
  lemma SweepNewHeadKept(t: seq<Entry>, now: int)
    requires |t| >= 2 && Expired(t[0], now)
    ensures Sweep(t, now) != [] && Sweep(t, now)[0] == t[1]
  {
  }

  /** The non-expired entries of t, in order: what a sweep without the skip would leave. */
  function Fresh(t: seq<Entry>, now: int): seq<Entry>
  {
    if t == [] then []
    else (if Expired(t[0], now) then [] else [t[0]]) + Fresh(t[1..], now)
  }

  /** No two neighbouring entries are both expired. */
  predicate NoAdjacentExpired(t: seq<Entry>, now: int)
  {
    forall i :: 0 <= i < |t| - 1 ==> !(Expired(t[i], now) && Expired(t[i + 1], now))
  }

  lemma {:induction false} WalkNoAdjacent(t: seq<Entry>, now: int)
    requires NoAdjacentExpired(t, now)
    requires t != [] ==> !Expired(t[0], now)
    ensures Walk(t, now) == Fresh(t, now)
    decreases |t|
  {
    if |t| == 1 {
      assert Fresh(t[1..], now) == [];
    } else if |t| > 1 {
      assert NoAdjacentExpired(t[1..], now) by {
        forall i | 0 <= i < |t[1..]| - 1
          ensures !(Expired(t[1..][i], now) && Expired(t[1..][i + 1], now))
        {
          assert t[1..][i] == t[i + 1] && t[1..][i + 1] == t[i + 2];
        }
      }
      if Expired(t[1], now) {
        var rest := t[2..];
        assert rest == t[1..][1..];
        assert NoAdjacentExpired(rest, now) by {
          forall i | 0 <= i < |rest| - 1
            ensures !(Expired(rest[i], now) && Expired(rest[i + 1], now))
          {
            assert rest[i] == t[i + 2] && rest[i + 1] == t[i + 3];
          }
        }
        if rest != [] {
          assert rest[0] == t[2];
          assert !(Expired(t[1], now) && Expired(t[2], now));
        }
        WalkNoAdjacent(rest, now);
        assert Fresh(t[1..], now) == Fresh(rest, now);
      } else {
        WalkNoAdjacent(t[1..], now);
      }
    }
  }

  /** The completeness gap only shows on neighbouring expired entries: without such a pair the
      sweep leaves exactly the non-expired entries, in order. */
  lemma SweepWithoutAdjacentExpired(t: seq<Entry>, now: int)
    requires NoAdjacentExpired(t, now)
    ensures Sweep(t, now) == Fresh(t, now)
  {
    if t != [] {
      if Expired(t[0], now) {
        assert NoAdjacentExpired(t[1..], now) by {
          forall i | 0 <= i < |t[1..]| - 1
            ensures !(Expired(t[1..][i], now) && Expired(t[1..][i + 1], now))
          {
            assert t[1..][i] == t[i + 1] && t[1..][i + 1] == t[i + 2];
          }
        }
        if |t| > 1 {
          assert t[1..][0] == t[1];
        }
        WalkNoAdjacent(t[1..], now);
      } else {
        WalkNoAdjacent(t, now);
      }
    }
  }
}
