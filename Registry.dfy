/** The listener registry of zigpy_zboss/api.py: `ZBOSS._listeners`, a
    dictionary from a command header to the listeners waiting on that
    header, in the order they registered. Listeners are the one-shot
    response listeners of `wait_for_responses` and the indication
    listeners of `register_indication_listeners`; each is identified by a
    number the registry hands out. */
module Registry {
  import opened Headers
  import opened Commands

  /** A listener: its identity, whether it is a OneShotResponseListener
      (otherwise an IndicationListener), and the commands it matches. */
  datatype Listener = Listener(id: nat, oneShot: bool, patterns: seq<Command>)

  type Listeners = map<HLHeader, seq<Listener>>

  function CommandHeader(c: Command): HLHeader {
    ClassHeader(c.cls)
  }

  /** The listener's patterns accept the command: one of them matches it. */
  predicate Accepts(l: Listener, c: Command) {
    exists i :: 0 <= i < |l.patterns| && Matching(l.patterns[i], c)
  }

  predicate Distinct(hs: seq<HLHeader>) {
    forall i, j :: 0 <= i < j < |hs| ==> hs[i] != hs[j]
  }

  /** matching_headers: the headers of the patterns, each once. */
  function MatchingHeaders(ps: seq<Command>): (r: seq<HLHeader>)
    ensures Distinct(r)
    ensures forall h :: h in r <==> exists i :: 0 <= i < |ps| && CommandHeader(ps[i]) == h
  {
    if |ps| == 0 then []
    else
      var init := MatchingHeaders(ps[..|ps| - 1]);
      var h := CommandHeader(ps[|ps| - 1]);
      assert forall i :: 0 <= i < |ps| - 1 ==> ps[..|ps| - 1][i] == ps[i];
      if h in init then init else init + [h]
  }

  /** `self._listeners[h]` read without creating the entry. */
  function Bucket(reg: Listeners, h: HLHeader): seq<Listener> {
    if h in reg then reg[h] else []
  }

  /** The listener is in no bucket. */
  predicate Unreferenced(reg: Listeners, l: Listener) {
    forall h :: h in reg ==> l !in reg[h]
  }

  /** No bucket is empty. */
  predicate NoEmptyBucket(reg: Listeners) {
    forall h :: h in reg ==> reg[h] != []
  }

  /** The listener appears in each bucket at most once. */
  predicate AtMostOnce(reg: Listeners, l: Listener) {
    forall h, i, j :: h in reg && 0 <= i < j < |reg[h]| && reg[h][i] == l ==> reg[h][j] != l
  }

  // ---------------------------------------------------------- registering

  /** The loop of wait_for_responses and register_indication_listeners:
      the listener is appended to the bucket of every header in turn. */
  function AppendTo(reg: Listeners, hs: seq<HLHeader>, l: Listener): Listeners {
    if |hs| == 0 then reg
    else
      var r := AppendTo(reg, hs[..|hs| - 1], l);
      var h := hs[|hs| - 1];
      r[h := Bucket(r, h) + [l]]
  }

  /** Appending gives each named bucket the listener at its end and leaves
      every other bucket alone. */
  lemma {:induction false} AppendToSpec(reg: Listeners, hs: seq<HLHeader>, l: Listener)
    requires Distinct(hs)
    ensures var r := AppendTo(reg, hs, l);
      && (forall h :: h in r <==> h in reg || h in hs)
      && (forall h :: h in hs ==> r[h] == Bucket(reg, h) + [l])
      && (forall h :: h in reg && h !in hs ==> r[h] == reg[h])
    decreases |hs|
  {
    if |hs| > 0 {
      var init := hs[..|hs| - 1];
      assert Distinct(init) by {
        forall i, j | 0 <= i < j < |init| ensures init[i] != init[j] {
          assert init[i] == hs[i] && init[j] == hs[j];
        }
      }
      AppendToSpec(reg, init, l);
      assert hs == init + [hs[|hs| - 1]];
      assert hs[|hs| - 1] !in init by {
        forall i | 0 <= i < |init| ensures init[i] != hs[|hs| - 1] {
          assert init[i] == hs[i];
        }
      }
    }
  }

  // ------------------------------------------------------------- removing

  /** `list.remove`: the first occurrence goes; an absent element raises
      the ValueError that remove_listener swallows, leaving the list. */
  function RemoveFirst(s: seq<Listener>, l: Listener): (r: seq<Listener>)
    ensures l !in s ==> r == s
    ensures l in s ==> |r| == |s| - 1
    ensures forall x :: x in r ==> x in s
  {
    if |s| == 0 then []
    else if s[0] == l then s[1..]
    else [s[0]] + RemoveFirst(s[1..], l)
  }

  lemma {:induction false} RemoveFirstLast(s: seq<Listener>, l: Listener)
    requires l !in s
    ensures RemoveFirst(s + [l], l) == s
    decreases |s|
  {
    if |s| == 0 {
      assert [] + [l] == [l];
    } else {
      assert (s + [l])[1..] == s[1..] + [l];
      RemoveFirstLast(s[1..], l);
    }
  }

  /** A listener in its bucket at most once is gone after one removal. */
  lemma {:induction false} RemoveFirstOnce(s: seq<Listener>, l: Listener)
    requires forall i, j :: 0 <= i < j < |s| && s[i] == l ==> s[j] != l
    ensures l !in RemoveFirst(s, l)
    decreases |s|
  {
    if |s| > 0 {
      if s[0] == l {
        forall x | x in s[1..] ensures x != l {
          var j :| 0 <= j < |s[1..]| && s[1..][j] == x;
          assert s[j + 1] == x;
        }
      } else {
        RemoveFirstOnce(s[1..], l);
      }
    }
  }

  /** One header of remove_listener: the listener leaves the bucket, and a
      bucket that becomes empty is deleted (`self._listeners[header]`
      creates the entry first, so a header with no bucket ends with none). */
  function RemoveAt(reg: Listeners, h: HLHeader, l: Listener): Listeners {
    var b := RemoveFirst(Bucket(reg, h), l);
    if b == [] then reg - {h} else reg[h := b]
  }

  function RemoveEach(reg: Listeners, hs: seq<HLHeader>, l: Listener): Listeners {
    if |hs| == 0 then reg
    else RemoveAt(RemoveEach(reg, hs[..|hs| - 1], l), hs[|hs| - 1], l)
  }

  /** Removing from one more header of the list. */
  lemma RemoveEachStep(reg: Listeners, hs: seq<HLHeader>, i: nat, l: Listener)
    requires i < |hs|
    ensures RemoveEach(reg, hs[..i + 1], l) == RemoveAt(RemoveEach(reg, hs[..i], l), hs[i], l)
  {
    assert hs[..i + 1][..i] == hs[..i];
  }

  /** remove_listener: nothing at all on an empty registry. */
  function RemoveFrom(reg: Listeners, hs: seq<HLHeader>, l: Listener): Listeners {
    if |reg| == 0 then reg else RemoveEach(reg, hs, l)
  }

  /** Removing touches only the named buckets. */
  lemma {:induction false} RemoveEachOthers(reg: Listeners, hs: seq<HLHeader>, l: Listener)
    ensures var r := RemoveEach(reg, hs, l);
      forall h :: h !in hs ==> (h in r <==> h in reg) && (h in reg ==> r[h] == reg[h])
    decreases |hs|
  {
    if |hs| > 0 {
      RemoveEachOthers(reg, hs[..|hs| - 1], l);
      assert forall h :: h !in hs ==> h !in hs[..|hs| - 1] by {
        assert hs == hs[..|hs| - 1] + [hs[|hs| - 1]];
      }
    }
  }

  /** Each named bucket loses the listener: after removal the buckets of
      `hs` hold the old bucket without its first occurrence, and an emptied
      bucket is gone. */
  lemma {:induction false} RemoveEachSpec(reg: Listeners, hs: seq<HLHeader>, l: Listener)
    requires Distinct(hs)
    ensures var r := RemoveEach(reg, hs, l);
      forall h :: h in hs ==>
        var b := RemoveFirst(Bucket(reg, h), l);
        (h in r <==> b != []) && (h in r ==> r[h] == b)
    decreases |hs|
  {
    if |hs| > 0 {
      var init := hs[..|hs| - 1];
      var last := hs[|hs| - 1];
      assert Distinct(init) by {
        forall i, j | 0 <= i < j < |init| ensures init[i] != init[j] {
          assert init[i] == hs[i] && init[j] == hs[j];
        }
      }
      assert last !in init by {
        forall i | 0 <= i < |init| ensures init[i] != last {
          assert init[i] == hs[i];
        }
      }
      RemoveEachSpec(reg, init, l);
      RemoveEachOthers(reg, init, l);
      assert hs == init + [last];
    }
  }

  /** Leak-freedom: a listener registered under distinct headers and then
      removed leaves the registry exactly as it was, when the registry held
      no empty bucket and did not know the listener. */
  lemma AddThenRemove(reg: Listeners, hs: seq<HLHeader>, l: Listener)
    requires Distinct(hs) && |hs| > 0 && NoEmptyBucket(reg) && Unreferenced(reg, l)
    ensures RemoveFrom(AppendTo(reg, hs, l), hs, l) == reg
  {
    var added := AppendTo(reg, hs, l);
    AppendToSpec(reg, hs, l);
    assert hs[0] in added;
    var r := RemoveEach(added, hs, l);
    RemoveEachSpec(added, hs, l);
    RemoveEachOthers(added, hs, l);
    forall h | h in hs
      ensures (h in r <==> h in reg) && (h in r ==> r[h] == reg[h])
    {
      RemoveFirstLast(Bucket(reg, h), l);
    }
    assert r.Keys == reg.Keys;
  }

  /** Whatever the registry, a listener found at most once per bucket and
      only under the headers given is referenced by none after removal. */
  lemma RemoveClears(reg: Listeners, hs: seq<HLHeader>, l: Listener)
    requires Distinct(hs) && AtMostOnce(reg, l)
    requires forall h :: h in reg && l in reg[h] ==> h in hs
    ensures Unreferenced(RemoveFrom(reg, hs, l), l)
  {
    if |reg| > 0 {
      var r := RemoveEach(reg, hs, l);
      RemoveEachSpec(reg, hs, l);
      RemoveEachOthers(reg, hs, l);
      forall h | h in r
        ensures l !in r[h]
      {
        if h in hs {
          RemoveFirstOnce(Bucket(reg, h), l);
        }
      }
    }
  }

  // ------------------------------------------------------------- dispatch

  /** The state of a one-shot listener's future. */
  datatype Future = Pending | Resolved(result: Command) | Cancelled

  /** The listener would take the command: an indication whenever it
      accepts it, a one-shot only while its future is pending. */
  predicate Fires(l: Listener, futures: map<nat, Future>, c: Command) {
    Accepts(l, c) && (l.oneShot ==> l.id in futures && futures[l.id].Pending?)
  }

  /** The flags and effects of the dispatch loop of frame_received: the
      futures resolved and the indication callbacks invoked, in order. */
  datatype Walk = Walk(matched: bool, oneShotMatched: bool, futures: map<nat, Future>, calls: seq<(nat, Command)>)

  /** One listener of the bucket: after a one-shot matched, later one-shots
      are skipped; `resolve` sets a pending future's result or calls an
      indication's callback. */
  function Step(w: Walk, l: Listener, c: Command): Walk {
    if w.oneShotMatched && l.oneShot then w
    else if !Fires(l, w.futures, c) then w
    else if l.oneShot then w.(matched := true, oneShotMatched := true, futures := w.futures[l.id := Resolved(c)])
    else w.(matched := true, calls := w.calls + [(l.id, c)])
  }

  /** The loop over the first `n` listeners of the bucket. */
  function WalkOver(bucket: seq<Listener>, n: nat, c: Command, w0: Walk): Walk
    requires n <= |bucket|
  {
    if n == 0 then w0 else Step(WalkOver(bucket, n - 1, c, w0), bucket[n - 1], c)
  }

  /** The callbacks of the indications among the first `n` listeners that
      accept the command, in bucket order. */
  function IndicationCalls(bucket: seq<Listener>, n: nat, c: Command): seq<(nat, Command)>
    requires n <= |bucket|
  {
    if n == 0 then []
    else
      var l := bucket[n - 1];
      IndicationCalls(bucket, n - 1, c) + if !l.oneShot && Accepts(l, c) then [(l.id, c)] else []
  }

  /** The index of the first one-shot among the first `n` listeners that
      fires against `futures`, or -1. */
  function FirstOneShot(bucket: seq<Listener>, n: nat, futures: map<nat, Future>, c: Command): (r: int)
    requires n <= |bucket|
    ensures -1 <= r < n
    ensures r >= 0 ==> bucket[r].oneShot && Fires(bucket[r], futures, c)
    ensures forall i :: 0 <= i < n && (r < 0 || i < r) ==> !(bucket[i].oneShot && Fires(bucket[i], futures, c))
  {
    if n == 0 then -1
    else
      var r := FirstOneShot(bucket, n - 1, futures, c);
      if r >= 0 then r
      else if bucket[n - 1].oneShot && Fires(bucket[n - 1], futures, c) then n - 1
      else -1
  }

  /** The dispatch rule: every indication that accepts the command is
      called, in order; exactly the first pending one-shot that accepts it
      is resolved and no other; and the result is true exactly when some
      listener fired. */
  lemma {:induction false} WalkSpec(bucket: seq<Listener>, n: nat, c: Command, futures: map<nat, Future>, calls: seq<(nat, Command)>)
    requires n <= |bucket|
    ensures var w := WalkOver(bucket, n, c, Walk(false, false, futures, calls));
      var k := FirstOneShot(bucket, n, futures, c);
      && w.calls == calls + IndicationCalls(bucket, n, c)
      && (w.oneShotMatched <==> k >= 0)
      && w.futures == (if k >= 0 then futures[bucket[k].id := Resolved(c)] else futures)
      && (w.matched <==> exists i :: 0 <= i < n && Fires(bucket[i], futures, c))
    decreases n
  {
    if n > 0 {
      WalkSpec(bucket, n - 1, c, futures, calls);
      var w := WalkOver(bucket, n - 1, c, Walk(false, false, futures, calls));
      var l := bucket[n - 1];
      if !l.oneShot {
        assert Fires(l, w.futures, c) == Fires(l, futures, c);
      }
    }
  }
}
