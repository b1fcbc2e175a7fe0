/** The ZBOSS class of zigpy_zboss/api.py: the fragment accumulator and
    dispatch of frame_received, the listener registry operations, the
    checks and fragment sending of request, the registry part of
    disconnect, and the decoding in version. Awaiting, timeouts and locks
    are not modelled: a future is a value in `futures`, and the done
    callback a future runs once it is resolved or cancelled is applied
    right after the step that completed it. */
module Api {
  import opened Wrappers
  import opened Basic
  import opened Headers
  import opened Frames
  import opened Commands
  import opened Registry

  /** The parts of a ZBOSS object the modelled methods read and change.
      `calls` records the indication callbacks invoked, `unhandled` the
      commands passed to _unhandled_command and `sent` the frames handed to
      `uart.send`; `uart` and `app` say whether `_uart` and `_app` are set. */
  datatype ZbossState = ZbossState(
    listeners: Listeners,
    futures: map<nat, Future>,
    calls: seq<(nat, Command)>,
    rxFragments: seq<Frame>,
    unhandled: seq<Command>,
    sent: seq<Frame>,
    uart: bool,
    app: bool,
    resetLocked: bool,
    nextId: nat)

  /** A state of a new ZBOSS object. */
  function Fresh(): ZbossState {
    ZbossState(map[], map[], [], [], [], [], false, false, false, 0)
  }

  predicate Unique(b: seq<Listener>) {
    forall i, j :: 0 <= i < j < |b| ==> b[i] != b[j]
  }

  /** What the registry operations keep: every registered listener was
      handed out before and sits only under headers it matches, no bucket
      holds a listener twice, and every future belongs to a listener handed
      out before. */
  predicate Consistent(s: ZbossState) {
    Placed(s.listeners, s.nextId) && Uniq(s.listeners) && Known(s.futures, s.nextId)
  }

  /** Every registered listener has an id already handed out and sits
      only under headers its patterns name. */
  predicate Placed(reg: Listeners, next: nat) {
    forall h, l :: h in reg && l in reg[h] ==> l.id < next && h in MatchingHeaders(l.patterns)
  }

  /** No bucket holds a listener twice. */
  predicate Uniq(reg: Listeners) {
    forall h :: h in reg ==> Unique(reg[h])
  }

  /** Every future belongs to an id already handed out. */
  predicate Known(futures: map<nat, Future>, next: nat) {
    forall id :: id in futures ==> id < next
  }

  // ------------------------------------------------------------ listeners

  /** The listener a registration creates. */
  function NewListener(s: ZbossState, patterns: seq<Command>, oneShot: bool): Listener {
    Listener(s.nextId, oneShot, patterns)
  }

  /** wait_for_responses (`oneShot`) and register_indication_listeners: an
      empty pattern list is refused with ValueError; otherwise the new
      listener joins the bucket of every header it matches, and a one-shot
      gets a pending future. */
  function Listen(s: ZbossState, patterns: seq<Command>, oneShot: bool): (r: Result<ZbossState>)
    ensures r.Ok? <==> patterns != []
    ensures r.Err? ==> r.error == ValueError
  {
    if patterns == [] then Err(ValueError)
    else
      var l := NewListener(s, patterns, oneShot);
      Ok(s.(listeners := AppendTo(s.listeners, MatchingHeaders(patterns), l),
            futures := if oneShot then s.futures[l.id := Pending] else s.futures,
            nextId := s.nextId + 1))
  }

  /** remove_listener. */
  function Unlisten(s: ZbossState, l: Listener): ZbossState {
    s.(listeners := RemoveFrom(s.listeners, MatchingHeaders(l.patterns), l))
  }

  /** `future.cancel()` on a one-shot's future, by a caller or a timeout,
      then the done callback; a future already done stays as it is. */
  function CancelFuture(s: ZbossState, l: Listener): ZbossState {
    if l.oneShot && l.id in s.futures && s.futures[l.id].Pending? then
      Unlisten(s.(futures := s.futures[l.id := Cancelled]), l)
    else s
  }

  lemma RemoveFirstUnique(b: seq<Listener>, l: Listener)
    requires Unique(b)
    ensures Unique(RemoveFirst(b, l))
    decreases |b|
  {
    if |b| > 0 && b[0] != l {
      RemoveFirstUnique(b[1..], l);
      var t := RemoveFirst(b[1..], l);
      assert b[0] !in b[1..];
      assert b[0] !in t;
      forall i, j | 0 <= i < j < |[b[0]] + t| ensures ([b[0]] + t)[i] != ([b[0]] + t)[j] {
        if i == 0 {
          assert ([b[0]] + t)[j] == t[j - 1];
        } else {
          assert ([b[0]] + t)[i] == t[i - 1] && ([b[0]] + t)[j] == t[j - 1];
        }
      }
    }
  }

  /** Registration hands out a listener no bucket knew, adds it at the end
      of the bucket of each matched header, leaves every other bucket
      alone, gives a one-shot a pending future and keeps the registry
      consistent. */
  lemma ListenSpec(s: ZbossState, patterns: seq<Command>, oneShot: bool)
    requires Consistent(s) && patterns != []
    ensures var t := Listen(s, patterns, oneShot).value; var l := NewListener(s, patterns, oneShot);
      var hs := MatchingHeaders(patterns);
      && Unreferenced(s.listeners, l)
      && (forall h :: h in t.listeners <==> h in s.listeners || h in hs)
      && (forall h :: h in hs ==> t.listeners[h] == Bucket(s.listeners, h) + [l])
      && (forall h :: h in s.listeners && h !in hs ==> t.listeners[h] == s.listeners[h])
      && (oneShot ==> l.id in t.futures && t.futures[l.id] == Pending)
      && Consistent(t)
  {
    var l := NewListener(s, patterns, oneShot);
    AppendToSpec(s.listeners, MatchingHeaders(patterns), l);
    ListenKeeps(s, patterns, oneShot);
  }

  /** Registering keeps the registry consistent. */
  lemma ListenKeeps(s: ZbossState, patterns: seq<Command>, oneShot: bool)
    requires Consistent(s) && patterns != []
    ensures Consistent(Listen(s, patterns, oneShot).value)
  {
    var l := NewListener(s, patterns, oneShot);
    var hs := MatchingHeaders(patterns);
    AppendPlaced(s.listeners, s.nextId, hs, l);
    AppendUniq(s.listeners, hs, l);
  }

  /** Appending a new listener under headers of its patterns keeps every
      listener placed. */
  lemma AppendPlaced(reg: Listeners, next: nat, hs: seq<HLHeader>, l: Listener)
    requires Placed(reg, next) && Distinct(hs) && l.id == next
    requires forall h :: h in hs ==> h in MatchingHeaders(l.patterns)
    ensures Placed(AppendTo(reg, hs, l), next + 1)
  {
    var r := AppendTo(reg, hs, l);
    AppendToSpec(reg, hs, l);
    forall h, x: Listener | h in r && x in r[h]
      ensures x.id < next + 1 && h in MatchingHeaders(x.patterns)
    {
      if h in hs {
        assert x == l || x in Bucket(reg, h);
      }
    }
  }

  /** Appending a listener found in no bucket keeps every bucket free of
      repeats. */
  lemma AppendUniq(reg: Listeners, hs: seq<HLHeader>, l: Listener)
    requires Uniq(reg) && Distinct(hs) && Unreferenced(reg, l)
    ensures Uniq(AppendTo(reg, hs, l))
  {
    var r := AppendTo(reg, hs, l);
    AppendToSpec(reg, hs, l);
    forall h | h in r ensures Unique(r[h]) {
      if h in hs {
        UniqueAppend(Bucket(reg, h), l);
      }
    }
  }

  lemma UniqueAppend(b: seq<Listener>, l: Listener)
    requires Unique(b) && l !in b
    ensures Unique(b + [l])
  {
    forall i, j | 0 <= i < j < |b + [l]| ensures (b + [l])[i] != (b + [l])[j] {
      if j == |b| {
        assert (b + [l])[i] == b[i];
      } else {
        assert (b + [l])[i] == b[i] && (b + [l])[j] == b[j];
      }
    }
  }

  /** Leak-freedom of one registration: removing a listener right after
      registering it gives back the registry it was added to, when no
      bucket of that registry was empty. */
  lemma ListenThenUnlisten(s: ZbossState, patterns: seq<Command>, oneShot: bool)
    requires Consistent(s) && patterns != [] && NoEmptyBucket(s.listeners)
    ensures Unlisten(Listen(s, patterns, oneShot).value, NewListener(s, patterns, oneShot)).listeners == s.listeners
  {
    var l := NewListener(s, patterns, oneShot);
    var hs := MatchingHeaders(patterns);
    assert CommandHeader(patterns[0]) in hs;
    assert Unreferenced(s.listeners, l);
    AddThenRemove(s.listeners, hs, l);
  }

  /** A registry whose buckets are sub-buckets of a consistent one's is
      consistent too. */
  lemma ConsistentSub(s: ZbossState, r: Listeners)
    requires Consistent(s)
    requires forall h :: h in r ==> h in s.listeners && Unique(r[h]) && forall x :: x in r[h] ==> x in s.listeners[h]
    ensures Consistent(s.(listeners := r))
  {
  }

  /** remove_listener leaves no reference to the listener in any bucket,
      whatever the registry held, and keeps it consistent. */
  lemma UnlistenSpec(s: ZbossState, l: Listener)
    requires Consistent(s)
    ensures Unreferenced(Unlisten(s, l).listeners, l)
    ensures Consistent(Unlisten(s, l))
  {
    var reg := s.listeners;
    var hs := MatchingHeaders(l.patterns);
    RemoveClears(reg, hs, l);
    var r := RemoveFrom(reg, hs, l);
    assert forall h :: h in r ==> h in reg && Unique(r[h]) && forall x :: x in r[h] ==> x in reg[h] by {
      if |reg| > 0 {
        RemoveEachSpec(reg, hs, l);
        RemoveEachOthers(reg, hs, l);
        forall h | h in r
          ensures h in reg && Unique(r[h]) && forall x :: x in r[h] ==> x in reg[h]
        {
          if h in hs {
            RemoveFirstUnique(Bucket(reg, h), l);
          }
        }
      }
    }
    ConsistentSub(s, r);
  }

  /** Cancelling a pending one-shot, or its timing out, marks its future
      cancelled and leaves no reference to it; any other call changes
      nothing. */
  lemma CancelSpec(s: ZbossState, l: Listener)
    requires Consistent(s)
    ensures var t := CancelFuture(s, l);
      && Consistent(t)
      && (l.oneShot && l.id in s.futures && s.futures[l.id].Pending? ==>
            t.futures == s.futures[l.id := Cancelled] && Unreferenced(t.listeners, l))
      && (!(l.oneShot && l.id in s.futures && s.futures[l.id].Pending?) ==> t == s)
  {
    if l.oneShot && l.id in s.futures && s.futures[l.id].Pending? {
      UnlistenSpec(s.(futures := s.futures[l.id := Cancelled]), l);
    }
  }

  // ------------------------------------------------------------- dispatch

  /** The dispatch part of frame_received for a parsed command: the loop
      over the header's bucket (indexing the defaultdict creates the empty
      bucket of a header nobody listens to), `_unhandled_command` when
      nothing matched, and the done callback of the one-shot resolved. */
  function Deliver(s: ZbossState, c: Command): (ZbossState, bool) {
    var h := CommandHeader(c);
    var bucket := Bucket(s.listeners, h);
    var w := WalkOver(bucket, |bucket|, c, Walk(false, false, s.futures, s.calls));
    var k := FirstOneShot(bucket, |bucket|, s.futures, c);
    var t := DeliverWalked(s, c);
    (if k >= 0 then Unlisten(t, bucket[k]) else t, w.matched)
  }

  /** frame_received for a whole frame: no packet is an AttributeError, a
      header that is absent or has no class drops the frame, and otherwise
      the command parsed by the class is dispatched. */
  function Handle(table: map<HLHeader, CommandClass>, s: ZbossState, f: Frame): (ZbossState, Result<Option<bool>>) {
    if f.hl.None? then (s, Err(AttributeError))
    else if f.hl.value.header.None? || f.hl.value.header.value !in table then (s, Ok(None))
    else
      var c := Parse(table[f.hl.value.header.value], f);
      if c.Err? then (s, Err(c.error))
      else
        var (t, matched) := Deliver(s, c.value);
        (t, Ok(Some(matched)))
  }

  /** frame_received: a frame without LastFrag is stored and nothing is
      returned; a LastFrag frame after stored fragments is merged with
      them (a failed merge raises and leaves the fragments stored); the
      whole frame is then handled. */
  function Receive(cs: Checksums, table: map<HLHeader, CommandClass>, s: ZbossState, f: Frame): (ZbossState, Result<Option<bool>>) {
    if !HasFlag(Flags(f.ll), LastFrag) then (s.(rxFragments := s.rxFragments + [f]), Ok(None))
    else if s.rxFragments != [] then
      var frags := s.rxFragments + [f];
      var m := RxMerge(cs, frags);
      if m.Err? then (s.(rxFragments := frags), Err(m.error))
      else Handle(table, s.(rxFragments := []), m.value)
    else Handle(table, s, f)
  }

  /** The dispatch rule: the result is true exactly when some listener of
      the bucket fires; every indication that accepts the command is
      called, in bucket order; only the first pending one-shot that accepts
      it is resolved, and it is then gone from the registry; a command
      nobody took goes to `_unhandled_command`. */
  lemma DeliverSpec(s: ZbossState, c: Command)
    requires Consistent(s)
    ensures var h := CommandHeader(c); var bucket := Bucket(s.listeners, h);
      var k := FirstOneShot(bucket, |bucket|, s.futures, c);
      var (t, matched) := Deliver(s, c);
      && (matched <==> exists i :: 0 <= i < |bucket| && Fires(bucket[i], s.futures, c))
      && t.calls == s.calls + IndicationCalls(bucket, |bucket|, c)
      && t.futures == (if k >= 0 then s.futures[bucket[k].id := Resolved(c)] else s.futures)
      && t.unhandled == (if matched then s.unhandled else s.unhandled + [c])
      && (k >= 0 ==> Unreferenced(t.listeners, bucket[k]))
      && (k < 0 ==> t.listeners == s.listeners[h := bucket])
  {
    DeliverWalk(s, c);
    DeliverRemoves(s, c);
  }

  lemma DeliverWalk(s: ZbossState, c: Command)
    ensures var h := CommandHeader(c); var bucket := Bucket(s.listeners, h);
      var k := FirstOneShot(bucket, |bucket|, s.futures, c);
      var (t, matched) := Deliver(s, c);
      && (matched <==> exists i :: 0 <= i < |bucket| && Fires(bucket[i], s.futures, c))
      && t.calls == s.calls + IndicationCalls(bucket, |bucket|, c)
      && t.futures == (if k >= 0 then s.futures[bucket[k].id := Resolved(c)] else s.futures)
      && t.unhandled == (if matched then s.unhandled else s.unhandled + [c])
  {
    var bucket := Bucket(s.listeners, CommandHeader(c));
    WalkSpec(bucket, |bucket|, c, s.futures, s.calls);
  }

  lemma DeliverRemoves(s: ZbossState, c: Command)
    requires Consistent(s)
    ensures var h := CommandHeader(c); var bucket := Bucket(s.listeners, h);
      var k := FirstOneShot(bucket, |bucket|, s.futures, c);
      var t := Deliver(s, c).0;
      && (k >= 0 ==> Unreferenced(t.listeners, bucket[k]))
      && (k < 0 ==> t.listeners == s.listeners[h := bucket])
  {
    var bucket := Bucket(s.listeners, CommandHeader(c));
    var k := FirstOneShot(bucket, |bucket|, s.futures, c);
    if k >= 0 {
      WalkedKeeps(s, c);
      UnlistenSpec(DeliverWalked(s, c), bucket[k]);
    }
  }

  lemma WalkedKeeps(s: ZbossState, c: Command)
    requires Consistent(s)
    ensures Consistent(DeliverWalked(s, c))
  {
    var h := CommandHeader(c);
    var bucket := Bucket(s.listeners, h);
    var k := FirstOneShot(bucket, |bucket|, s.futures, c);
    var w := WalkOver(bucket, |bucket|, c, Walk(false, false, s.futures, s.calls));
    WalkSpec(bucket, |bucket|, c, s.futures, s.calls);
    var s1 := s.(listeners := s.listeners[h := bucket]);
    BucketKept(s, h);
    var s2 := s1.(futures := w.futures);
    if k >= 0 {
      assert bucket[k] in s.listeners[h];
      FutureSet(s1, bucket[k].id, Resolved(c));
    }
    ConsistentFields(s2, DeliverWalked(s, c));
  }

  /** Creating an empty bucket keeps the registry consistent. */
  lemma BucketKept(s: ZbossState, h: HLHeader)
    requires Consistent(s)
    ensures Consistent(s.(listeners := s.listeners[h := Bucket(s.listeners, h)]))
  {
  }

  /** Setting a known future keeps the registry consistent. */
  lemma FutureSet(s: ZbossState, id: nat, v: Future)
    requires Consistent(s) && id < s.nextId
    ensures Consistent(s.(futures := s.futures[id := v]))
  {
  }

  /** Consistency depends on the listeners, futures and next id alone. */
  lemma ConsistentFields(a: ZbossState, b: ZbossState)
    requires Consistent(a)
    requires a.listeners == b.listeners && a.futures == b.futures && a.nextId == b.nextId
    ensures Consistent(b)
  {
  }

  /** The state after the walk, before the resolved one-shot's removal. */
  function DeliverWalked(s: ZbossState, c: Command): ZbossState {
    var h := CommandHeader(c);
    var bucket := Bucket(s.listeners, h);
    var w := WalkOver(bucket, |bucket|, c, Walk(false, false, s.futures, s.calls));
    s.(listeners := s.listeners[h := bucket], futures := w.futures, calls := w.calls,
       unhandled := if w.matched then s.unhandled else s.unhandled + [c])
  }

  /** Dispatch keeps the registry consistent. */
  lemma DeliverKeeps(s: ZbossState, c: Command)
    requires Consistent(s)
    ensures Consistent(Deliver(s, c).0)
  {
    var bucket := Bucket(s.listeners, CommandHeader(c));
    var k := FirstOneShot(bucket, |bucket|, s.futures, c);
    WalkedKeeps(s, c);
    if k >= 0 {
      UnlistenSpec(DeliverWalked(s, c), bucket[k]);
    }
  }

  /** Handling a whole frame keeps the registry consistent, touches only
      the registry, futures, calls and unhandled commands, and touches
      nothing when it raises or drops the frame. */
  lemma HandleSpec(table: map<HLHeader, CommandClass>, s: ZbossState, f: Frame)
    requires Consistent(s)
    ensures var (t, r) := Handle(table, s, f);
      && Consistent(t)
      && (r.Err? || r == Ok(None) ==> t == s)
      && t.rxFragments == s.rxFragments && t.sent == s.sent && t.nextId == s.nextId
  {
    if f.hl.Some? && f.hl.value.header.Some? && f.hl.value.header.value in table {
      var c := Parse(table[f.hl.value.header.value], f);
      if c.Ok? {
        DeliverKeeps(s, c.value);
        DeliverOthers(s, c.value);
      }
    }
  }

  /** Dispatch leaves the fragment store, the sent frames and the next id. */
  lemma DeliverOthers(s: ZbossState, c: Command)
    ensures var t := Deliver(s, c).0;
      t.rxFragments == s.rxFragments && t.sent == s.sent && t.nextId == s.nextId
  {
  }

  /** A frame that cannot complete a command changes only the fragment
      store, and receiving keeps the registry consistent. */
  lemma ReceiveSpec(cs: Checksums, table: map<HLHeader, CommandClass>, s: ZbossState, f: Frame)
    requires Consistent(s)
    ensures var (t, r) := Receive(cs, table, s, f);
      && Consistent(t)
      && (r.Err? || r == Ok(None) ==> t.listeners == s.listeners && t.futures == s.futures && t.calls == s.calls && t.unhandled == s.unhandled)
      && (HasFlag(Flags(f.ll), LastFrag) && r.Ok? ==> t.rxFragments == [])
      && (!HasFlag(Flags(f.ll), LastFrag) ==> t.rxFragments == s.rxFragments + [f] && r == Ok(None))
      && t.sent == s.sent && t.nextId == s.nextId
  {
    if !HasFlag(Flags(f.ll), LastFrag) {
      ConsistentFields(s, s.(rxFragments := s.rxFragments + [f]));
    } else if s.rxFragments != [] {
      var frags := s.rxFragments + [f];
      var m := RxMerge(cs, frags);
      if m.Err? {
        ConsistentFields(s, s.(rxFragments := frags));
      } else {
        var u := s.(rxFragments := []);
        ConsistentFields(s, u);
        HandleSpec(table, u, m.value);
      }
    } else {
      HandleSpec(table, s, f);
    }
  }

  /** The frames received in turn, exceptions swallowed as the UART layer
      does, with the result of each call. */
  function ReceiveAll(cs: Checksums, table: map<HLHeader, CommandClass>, s: ZbossState, fs: seq<Frame>): (ZbossState, seq<Result<Option<bool>>>)
    decreases |fs|
  {
    if |fs| == 0 then (s, [])
    else
      var (t, r) := Receive(cs, table, s, fs[0]);
      var (u, rs) := ReceiveAll(cs, table, t, fs[1..]);
      (u, [r] + rs)
  }

  /** The results of `n` calls that returned nothing. */
  function Nothing(n: nat): seq<Result<Option<bool>>> {
    seq(n, _ => Ok(None))
  }

  /** One call of a sequence of receptions. */
  lemma ReceiveAllCons(cs: Checksums, table: map<HLHeader, CommandClass>, s: ZbossState, fs: seq<Frame>)
    requires |fs| > 0
    ensures var (t, r) := Receive(cs, table, s, fs[0]);
      ReceiveAll(cs, table, s, fs) == (ReceiveAll(cs, table, t, fs[1..]).0, [r] + ReceiveAll(cs, table, t, fs[1..]).1)
  {
  }

  /** Fragments without LastFrag followed by one with it: each of the
      first is stored with no result, and the last is received with all
      the others stored. */
  lemma {:induction false} ReceiveFragments(cs: Checksums, table: map<HLHeader, CommandClass>, s: ZbossState, frags: seq<Frame>, j: nat)
    requires j < |frags|
    requires forall k :: 0 <= k < |frags| - 1 ==> !HasFlag(Flags(frags[k].ll), LastFrag)
    ensures ReceiveAll(cs, table, s.(rxFragments := frags[..j]), frags[j..]) ==
      var last := ReceiveAll(cs, table, s.(rxFragments := frags[..|frags| - 1]), frags[|frags| - 1..]);
      (last.0, Nothing(|frags| - 1 - j) + last.1)
    decreases |frags| - j
  {
    var n := |frags|;
    var last := ReceiveAll(cs, table, s.(rxFragments := frags[..n - 1]), frags[n - 1..]);
    if j == n - 1 {
      assert Nothing(0) + last.1 == last.1;
    } else {
      ReceiveStep(cs, table, s, frags, j);
      ReceiveFragments(cs, table, s, frags, j + 1);
      NothingCons(n - 1 - j, last.1);
    }
  }

  /** The whole run of fragments from an empty store: nothing until the
      last fragment, which is merged with the others. */
  lemma ReceiveFragmentsAll(cs: Checksums, table: map<HLHeader, CommandClass>, s: ZbossState, frags: seq<Frame>)
    requires 0 < |frags|
    requires forall k :: 0 <= k < |frags| - 1 ==> !HasFlag(Flags(frags[k].ll), LastFrag)
    ensures ReceiveAll(cs, table, s.(rxFragments := frags[..0]), frags[0..]) ==
      var last := Receive(cs, table, s.(rxFragments := frags[..|frags| - 1]), frags[|frags| - 1]);
      (last.0, Nothing(|frags| - 1) + [last.1])
  {
    var n := |frags|;
    var u := s.(rxFragments := frags[..n - 1]);
    ReceiveFragments(cs, table, s, frags, 0);
    ReceiveLast(cs, table, u, frags[n - 1..]);
    assert frags[n - 1..][0] == frags[n - 1];
  }

  /** One reception left. */
  lemma ReceiveLast(cs: Checksums, table: map<HLHeader, CommandClass>, s: ZbossState, fs: seq<Frame>)
    requires |fs| == 1
    ensures ReceiveAll(cs, table, s, fs) == (Receive(cs, table, s, fs[0]).0, [Receive(cs, table, s, fs[0]).1])
  {
    ReceiveAllCons(cs, table, s, fs);
    var t := Receive(cs, table, s, fs[0]);
    assert fs[1..] == [];
    assert ReceiveAll(cs, table, t.0, []) == (t.0, []);
    assert [t.1] + [] == [t.1];
  }

  /** A fragment without LastFrag is stored and returns nothing. */
  lemma ReceiveStep(cs: Checksums, table: map<HLHeader, CommandClass>, s: ZbossState, frags: seq<Frame>, j: nat)
    requires j < |frags| && !HasFlag(Flags(frags[j].ll), LastFrag)
    ensures var rest := ReceiveAll(cs, table, s.(rxFragments := frags[..j + 1]), frags[j + 1..]);
      ReceiveAll(cs, table, s.(rxFragments := frags[..j]), frags[j..]) == (rest.0, [Ok(None)] + rest.1)
  {
    var u := s.(rxFragments := frags[..j]);
    ReceiveAllCons(cs, table, u, frags[j..]);
    assert frags[j..][0] == frags[j] && frags[j..][1..] == frags[j + 1..];
    assert frags[..j + 1] == frags[..j] + [frags[j]];
    ReceiveCases(cs, table, u, frags[j]);
  }

  lemma NothingCons(n: nat, xs: seq<Result<Option<bool>>>)
    requires n >= 1
    ensures [Ok(None)] + (Nothing(n - 1) + xs) == Nothing(n) + xs
  {
  }

  /** A command frame the NCP sent in fragments is handled, once its last
      fragment arrives, exactly as the whole frame would have been, when
      the first fragment holds the 4 header bytes; the earlier fragments
      return nothing. */
  lemma FragmentedLikeWhole(cs: Checksums, table: map<HLHeader, CommandClass>, s: ZbossState, f: Frame)
    requires s.rxFragments == [] && f.hl.Some? && HeaderWritten(f.hl.value)
    requires CountFragments(f.hl.value) >= 2 && FirstFragSize(|HLBody(f.hl.value)|) >= 4
    ensures var frags := TxFragments(f).value; var whole := Handle(table, s, f);
      ReceiveAll(cs, table, s, frags) == (whole.0, Nothing(|frags| - 1) + [whole.1])
  {
    var frags := TxFragments(f).value;
    var n := |frags|;
    TxFlags(f);
    ReassembleTx(cs, f);
    ReceiveFragmentsAll(cs, table, s, frags);
    assert frags[..0] == [] && frags[0..] == frags && s.(rxFragments := []) == s;
    var u := s.(rxFragments := frags[..n - 1]);
    SplitLast(frags);
    ReceiveMerges(cs, table, u, frags[n - 1]);
    assert u.(rxFragments := []) == s;
    HandleSameHl(table, s, RxMerge(cs, frags).value, f);
  }

  /** A non-empty sequence is its first part and its last element. */
  lemma SplitLast<T>(xs: seq<T>)
    requires |xs| >= 2
    ensures xs[..|xs| - 1] + [xs[|xs| - 1]] == xs && xs[..|xs| - 1] != []
  {
    assert xs[..|xs| - 1][0] == xs[0];
  }

  /** The three ways frame_received goes. */
  lemma ReceiveCases(cs: Checksums, table: map<HLHeader, CommandClass>, s: ZbossState, f: Frame)
    ensures !HasFlag(Flags(f.ll), LastFrag) ==> Receive(cs, table, s, f) == (s.(rxFragments := s.rxFragments + [f]), Ok(None))
    ensures HasFlag(Flags(f.ll), LastFrag) && s.rxFragments != [] ==>
      var m := RxMerge(cs, s.rxFragments + [f]);
      Receive(cs, table, s, f) == if m.Err? then (s.(rxFragments := s.rxFragments + [f]), Err(m.error))
        else Handle(table, s.(rxFragments := []), m.value)
    ensures HasFlag(Flags(f.ll), LastFrag) && s.rxFragments == [] ==> Receive(cs, table, s, f) == Handle(table, s, f)
  {
  }

  /** A LastFrag frame after stored fragments is handled, once merged,
      with the store emptied. */
  lemma ReceiveMerges(cs: Checksums, table: map<HLHeader, CommandClass>, s: ZbossState, f: Frame)
    requires HasFlag(Flags(f.ll), LastFrag) && s.rxFragments != []
    requires RxMerge(cs, s.rxFragments + [f]).Ok?
    ensures Receive(cs, table, s, f) == Handle(table, s.(rxFragments := []), RxMerge(cs, s.rxFragments + [f]).value)
  {
  }

  /** Only the last of the fragments carries LastFrag. */
  lemma TxFlags(f: Frame)
    requires f.hl.Some? && CountFragments(f.hl.value) >= 2
    ensures var frags := TxFragments(f).value;
      && |frags| >= 2
      && (forall k :: 0 <= k < |frags| - 1 ==> !HasFlag(Flags(frags[k].ll), LastFrag))
      && HasFlag(Flags(frags[|frags| - 1].ll), LastFrag)
  {
    TxFragmentsShape(f);
    assert BitAnd(FirstFrag, LastFrag) == 0 && BitAnd(0, LastFrag) == 0;
    assert BitAnd(LastFrag, LastFrag) == LastFrag;
  }

  /** frame_received looks only at the high-level packet of a whole frame. */
  lemma HandleSameHl(table: map<HLHeader, CommandClass>, s: ZbossState, f: Frame, g: Frame)
    requires f.hl == g.hl
    ensures Handle(table, s, f) == Handle(table, s, g)
  {
    if f.hl.Some? && f.hl.value.header.Some? && f.hl.value.header.value in table {
      var cls := table[f.hl.value.header.value];
      assert Parse(cls, f) == Parse(cls, g);
    }
  }

  /** from_frame ignores leftover payload, so a tabled command whose frame
      carries extra bytes is dispatched exactly as its own frame is. */
  lemma HandleTrailing(table: map<HLHeader, CommandClass>, s: ZbossState, c: Command, extra: Bytes)
    requires WellFormedSchema(ClassSchema(c.cls)) && Shaped(c) && PresentPrefix(c.bound, |c.bound|)
    requires forall j :: 0 <= j < |c.bound| ==> !Greedy(c.bound[j].param.ty)
    requires FrameOf(c).Ok?
    requires ClassHeader(c.cls) in table && table[ClassHeader(c.cls)] == c.cls
    ensures Handle(table, s, WithTrailing(FrameOf(c).value, extra)) == Handle(table, s, FrameOf(c).value)
    ensures Handle(table, s, FrameOf(c).value) == (Deliver(s, c).0, Ok(Some(Deliver(s, c).1)))
  {
    TrailingBytesAccepted(c, extra);
    TrailingBytesAccepted(c, []);
    TrailingNothing(FrameOf(c).value);
    HandleParsed(table, s, FrameOf(c).value, c);
    HandleParsed(table, s, WithTrailing(FrameOf(c).value, extra), c);
  }

  /** A frame whose class parses it is handled by dispatching the command. */
  lemma HandleParsed(table: map<HLHeader, CommandClass>, s: ZbossState, f: Frame, c: Command)
    requires f.hl.Some? && f.hl.value.header.Some? && f.hl.value.header.value in table
    requires Parse(table[f.hl.value.header.value], f) == Ok(c)
    ensures Handle(table, s, f) == (Deliver(s, c).0, Ok(Some(Deliver(s, c).1)))
  {
  }

  // -------------------------------------------------------------- request

  /** The fragments _send_frags hands to the UART: up to and including the
      first with LastFrag, each without waiting for a response. */
  function UpToLast(fs: seq<Frame>): seq<Frame>
    decreases |fs|
  {
    if |fs| == 0 then []
    else if HasFlag(Flags(fs[0].ll), LastFrag) then [fs[0]]
    else [fs[0]] + UpToLast(fs[1..])
  }

  /** What is sent is a prefix of the fragments in which only the last may
      carry LastFrag, and it stops short of the end only after a LastFrag. */
  lemma {:induction false} UpToLastSpec(fs: seq<Frame>)
    ensures var r := UpToLast(fs);
      && r <= fs
      && (forall k :: 0 <= k < |r| - 1 ==> !HasFlag(Flags(r[k].ll), LastFrag))
      && (|r| < |fs| ==> |r| > 0 && HasFlag(Flags(r[|r| - 1].ll), LastFrag))
    decreases |fs|
  {
    if |fs| > 0 && !HasFlag(Flags(fs[0].ll), LastFrag) {
      UpToLastSpec(fs[1..]);
      var r := UpToLast(fs);
      var t := UpToLast(fs[1..]);
      assert r == [fs[0]] + t;
      assert fs == [fs[0]] + fs[1..];
      forall k | 0 <= k < |r| - 1 ensures !HasFlag(Flags(r[k].ll), LastFrag) {
        if k > 0 {
          assert r[k] == t[k - 1];
        }
      }
    }
  }

  /** Past fragments without LastFrag, sending goes on with the rest. */
  lemma {:induction false} UpToLastSplit(fs: seq<Frame>, i: nat)
    requires i <= |fs|
    requires forall k :: 0 <= k < i ==> !HasFlag(Flags(fs[k].ll), LastFrag)
    ensures UpToLast(fs) == fs[..i] + UpToLast(fs[i..])
    decreases i
  {
    if i > 0 {
      UpToLastSplit(fs[1..], i - 1);
      assert fs[1..][..i - 1] == fs[1..i];
      assert fs[1..][i - 1..] == fs[i..];
      assert fs[..i] == [fs[0]] + fs[1..i];
    }
  }

  /** request after its checks: `to_frame`, fragmentation, the one-shot
      waiting for any response of the partner class, then the fragments
      sent. The result is the listener whose future the response resolves. */
  function Requested(s: ZbossState, req: Command): (ZbossState, Result<Listener>) {
    if req.cls.kind != ReqKind then (s, Err(ValueError))
    else if !s.uart then (s, Err(RuntimeError))
    else
      var frame := FrameOf(req);
      if frame.Err? then (s, Err(frame.error))
      else
        var frags := TxFragments(frame.value);
        if frags.Err? then (s, Err(frags.error))
        else
          var pattern := Construct(Partner(req.cls).value, true, []);
          if pattern.Err? then (s, Err(pattern.error))
          else
            var t := Listen(s, [pattern.value], true).value;
            (t.(sent := t.sent + UpToLast(frags.value)), Ok(NewListener(s, [pattern.value], true)))
  }

  /** When all but the last fragment lack LastFrag, all are sent. */
  lemma {:induction false} UpToLastAll(fs: seq<Frame>)
    requires forall k :: 0 <= k < |fs| - 1 ==> !HasFlag(Flags(fs[k].ll), LastFrag)
    ensures UpToLast(fs) == fs
    decreases |fs|
  {
    if |fs| > 1 {
      UpToLastAll(fs[1..]);
      assert [fs[0]] + fs[1..] == fs;
    } else if |fs| == 1 {
      assert [fs[0]] == fs;
    }
  }

  /** The partial response pattern binds no parameter. */
  lemma ResponsePattern(cls: CommandClass)
    ensures Construct(cls, true, []).Ok?
    ensures forall i :: 0 <= i < |Construct(cls, true, []).value.bound| ==> Construct(cls, true, []).value.bound[i].value.None?
  {
    ConstructSpec(cls, true, []);
  }

  /** A request fails only on a non-request command, a missing UART or a
      command that cannot be serialised, and then before anything changed;
      a request that goes out sends every fragment of its frame and leaves
      a pending one-shot under the response header that accepts any
      response of the partner class. */
  lemma RequestSpec(s: ZbossState, req: Command)
    requires Consistent(s)
    ensures var (t, r) := Requested(s, req);
      && (r.Err? <==> req.cls.kind != ReqKind || !s.uart || FrameOf(req).Err?)
      && (r.Err? ==> t == s)
      && (req.cls.kind != ReqKind ==> r == Err(ValueError))
      && (req.cls.kind == ReqKind && !s.uart ==> r == Err(RuntimeError))
      && (r.Ok? ==>
            var l := r.value; var rsp := Partner(req.cls).value;
            && l.oneShot && l.id == s.nextId && t.futures[l.id] == Pending
            && t.sent == s.sent + TxFragments(FrameOf(req).value).value
            && l in t.listeners[ClassHeader(rsp)]
            && (forall c: Command :: c.cls == rsp ==> Accepts(l, c))
            && Consistent(t))
  {
    if req.cls.kind == ReqKind && s.uart && FrameOf(req).Ok? {
      RequestGoesOut(s, req);
      RequestRegisters(s, req);
      var pattern := Construct(Partner(req.cls).value, true, []).value;
      var t := Requested(s, req).0;
      ConsistentFields(Listen(s, [pattern], true).value, t);
      assert t.futures == Listen(s, [pattern], true).value.futures;
      assert t.listeners == Listen(s, [pattern], true).value.listeners;
    }
  }

  /** A request that passes its checks is a registration plus the sending
      of every fragment. */
  lemma RequestGoesOut(s: ZbossState, req: Command)
    requires req.cls.kind == ReqKind && s.uart && FrameOf(req).Ok?
    ensures TxFragments(FrameOf(req).value).Ok?
    ensures Construct(Partner(req.cls).value, true, []).Ok?
    ensures var pattern := Construct(Partner(req.cls).value, true, []).value;
      var frags := TxFragments(FrameOf(req).value).value;
      Requested(s, req) == (Listen(s, [pattern], true).value.(sent := s.sent + frags), Ok(NewListener(s, [pattern], true)))
  {
    var frame := FrameOf(req).value;
    ResponsePattern(Partner(req.cls).value);
    var frags := TxFragments(frame).value;
    if CountFragments(frame.hl.value) >= 2 {
      TxFlags(frame);
    }
    UpToLastAll(frags);
  }

  /** The one-shot a request registers waits, pending, under the response
      header for any response of the partner class. */
  lemma RequestRegisters(s: ZbossState, req: Command)
    requires Consistent(s) && req.cls.kind == ReqKind
    ensures Construct(Partner(req.cls).value, true, []).Ok?
    ensures var rsp := Partner(req.cls).value; var pattern := Construct(rsp, true, []).value;
      var t := Listen(s, [pattern], true); var l := NewListener(s, [pattern], true);
      && t.Ok? && l.oneShot && l.id == s.nextId && t.value.futures[l.id] == Pending
      && l in t.value.listeners[ClassHeader(rsp)]
      && (forall c: Command :: c.cls == rsp ==> Accepts(l, c))
      && Consistent(t.value) && t.value.sent == s.sent
  {
    var rsp := Partner(req.cls).value;
    ResponsePattern(rsp);
    var pattern := Construct(rsp, true, []).value;
    ListenSpec(s, [pattern], true);
    assert CommandHeader(pattern) in MatchingHeaders([pattern]);
    var l := NewListener(s, [pattern], true);
    forall c: Command | c.cls == rsp ensures Accepts(l, c) {
      UnsetMatchesAll(pattern, c);
      assert l.patterns[0] == pattern;
    }
  }

  // ----------------------------------------------------------- disconnect

  /** The ids of the one-shots registered under the headers `hs`. */
  function OneShotIdsIn(reg: Listeners, hs: set<HLHeader>): set<nat> {
    set h, l | h in hs && h in reg && l in reg[h] && l.oneShot :: l.id
  }

  function OneShotIdsOf(b: seq<Listener>): set<nat> {
    set l | l in b && l.oneShot :: l.id
  }

  /** `listener.cancel()` for the listeners with the given ids: a pending
      future becomes cancelled, anything else stays, and an indication
      listener's cancel does nothing. */
  function CancelIds(futures: map<nat, Future>, ids: set<nat>): map<nat, Future> {
    map id | id in futures :: if id in ids && futures[id].Pending? then Cancelled else futures[id]
  }

  /** disconnect: unless a reset holds the lock, the application is
      dropped, every listener cancelled and the registry emptied; the
      done callbacks then find it empty. The UART goes in every case. */
  function Disconnected(s: ZbossState): ZbossState {
    var t := if !s.resetLocked then
        s.(app := false, futures := CancelIds(s.futures, OneShotIdsIn(s.listeners, s.listeners.Keys)), listeners := map[])
      else s;
    t.(uart := false)
  }

  /** Disconnecting without the reset lock leaves an empty registry in
      which removal is a no-op, no registered one-shot still pending and
      every other future as it was; under the lock the registry and the
      futures stay. */
  lemma DisconnectSpec(s: ZbossState)
    requires Consistent(s)
    ensures var t := Disconnected(s);
      && !t.uart && Consistent(t)
      && (!s.resetLocked ==>
            && t.listeners == map[] && !t.app
            && (forall l :: Unlisten(t, l) == t)
            && t.futures.Keys == s.futures.Keys
            && (forall h, l :: h in s.listeners && l in s.listeners[h] && l.oneShot && l.id in s.futures ==>
                  !t.futures[l.id].Pending?)
            && (forall id :: id in s.futures && id !in OneShotIdsIn(s.listeners, s.listeners.Keys) ==> t.futures[id] == s.futures[id]))
      && (s.resetLocked ==> t.listeners == s.listeners && t.futures == s.futures && t.app == s.app)
  {
    if !s.resetLocked {
      var ids := OneShotIdsIn(s.listeners, s.listeners.Keys);
      forall h, l | h in s.listeners && l in s.listeners[h] && l.oneShot && l.id in s.futures
        ensures !Disconnected(s).futures[l.id].Pending?
      {
        assert l.id in ids;
      }
    }
  }

  lemma CancelStep(f0: map<nat, Future>, ids: set<nat>, x: nat)
    ensures var cur := CancelIds(f0, ids);
      CancelIds(f0, ids + {x}) == if x in cur && cur[x].Pending? then cur[x := Cancelled] else cur
  {
    var cur := CancelIds(f0, ids);
    var nxt := CancelIds(f0, ids + {x});
    var upd := if x in cur && cur[x].Pending? then cur[x := Cancelled] else cur;
    assert nxt.Keys == upd.Keys;
    forall id | id in nxt ensures nxt[id] == upd[id] {
    }
  }

  lemma IdsOfPrefix(b: seq<Listener>, j: nat)
    requires j < |b|
    ensures OneShotIdsOf(b[..j + 1]) == OneShotIdsOf(b[..j]) + (if b[j].oneShot then {b[j].id} else {})
  {
    assert b[..j + 1] == b[..j] + [b[j]];
  }

  lemma IdsOfKey(reg: Listeners, done: set<HLHeader>, h: HLHeader)
    requires h in reg
    ensures OneShotIdsIn(reg, done + {h}) == OneShotIdsIn(reg, done) + OneShotIdsOf(reg[h])
  {
    var a := OneShotIdsIn(reg, done + {h});
    var b := OneShotIdsIn(reg, done) + OneShotIdsOf(reg[h]);
    forall x | x in a ensures x in b {
      var h', l :| h' in done + {h} && h' in reg && l in reg[h'] && l.oneShot && l.id == x;
      if h' != h {
        assert x in OneShotIdsIn(reg, done);
      }
    }
    forall x | x in b ensures x in a {
      if x in OneShotIdsOf(reg[h]) {
        var l :| l in reg[h] && l.oneShot && l.id == x;
      } else {
        var h', l :| h' in done && h' in reg && l in reg[h'] && l.oneShot && l.id == x;
      }
    }
  }

  // -------------------------------------------------------------- version

  function Digit(d: nat): (r: char)
    requires d < 10
    ensures '0' <= r <= '9'
  {
    ('0' as int + d) as char
  }

  predicate Digits(s: string) {
    forall i :: 0 <= i < |s| ==> '0' <= s[i] <= '9'
  }

  /** `str(n)` of a natural number. */
  function DecimalString(n: nat): (r: string)
    ensures |r| >= 1 && Digits(r)
  {
    if n < 10 then [Digit(n)] else DecimalString(n / 10) + [Digit(n % 10)]
  }

  /** The number a string of decimal digits denotes. */
  function ParseDecimal(s: string): nat
    requires Digits(s)
  {
    if |s| == 0 then 0 else ParseDecimal(s[..|s| - 1]) * 10 + (s[|s| - 1] as int - '0' as int)
  }

  lemma {:induction false} DecimalRoundTrip(n: nat)
    ensures ParseDecimal(DecimalString(n)) == n
  {
    if n >= 10 {
      DecimalRoundTrip(n / 10);
      var s := DecimalString(n);
      assert s[..|s| - 1] == DecimalString(n / 10);
    }
  }

  const P24: nat := 0x100_0000

  /** One version number rendered as `major.minor.revision.commit`; the
      masks and shifts of a u32 are its base-256 digits, high first. */
  function Dotted(v: nat): string
    requires v < P32
  {
    DecimalString(v / P24) + "." + DecimalString(v / P16 % 256) + "." + DecimalString(v / P8 % 256) + "." + DecimalString(v % 256)
  }

  /** version after the response: None on a non-zero StatusCode, otherwise
      the firmware, stack and protocol versions rendered. */
  function Version(status: int, fw: nat, stack: nat, protocol: nat): Option<(string, string, string)>
    requires fw < P32 && stack < P32 && protocol < P32
  {
    if status != 0 then None else Some((Dotted(fw), Dotted(stack), Dotted(protocol)))
  }

  /** `s.split(".")`. */
  function Split(s: string): (r: seq<string>)
    ensures |r| >= 1
    decreases |s|
  {
    if |s| == 0 then [""]
    else
      var rest := Split(s[1..]);
      if s[0] == '.' then [""] + rest else [[s[0]] + rest[0]] + rest[1..]
  }

  lemma {:induction false} SplitPlain(a: string)
    requires '.' !in a
    ensures Split(a) == [a]
    decreases |a|
  {
    if |a| > 0 {
      SplitPlain(a[1..]);
      assert [a[0]] + a[1..] == a;
    }
  }

  lemma {:induction false} SplitAt(a: string, rest: string)
    requires '.' !in a
    ensures Split(a + "." + rest) == [a] + Split(rest)
    decreases |a|
  {
    var s := a + "." + rest;
    if |a| == 0 {
      assert s == "." + rest && s[1..] == rest;
    } else {
      assert s[1..] == a[1..] + "." + rest;
      SplitAt(a[1..], rest);
      assert [a[0]] + a[1..] == a;
    }
  }

  /** Reading a rendered version back: four dot-separated decimal numbers
      below 256, recombined high digit first. */
  function ParseDotted(s: string): Option<nat> {
    var parts := Split(s);
    if |parts| == 4 && Digits(parts[0]) && Digits(parts[1]) && Digits(parts[2]) && Digits(parts[3]) then
      var d0, d1, d2, d3 := ParseDecimal(parts[0]), ParseDecimal(parts[1]), ParseDecimal(parts[2]), ParseDecimal(parts[3]);
      if d0 < 256 && d1 < 256 && d2 < 256 && d3 < 256 then Some(Combine(d0, d1, d2, d3)) else None
    else None
  }

  /** Four base-256 digits, high first. */
  function Combine(d0: nat, d1: nat, d2: nat, d3: nat): nat {
    d0 * P24 + d1 * P16 + d2 * P8 + d3
  }

  lemma Recompose(v: nat)
    requires v < P32
    ensures v / P24 < 256
    ensures Combine(v / P24, v / P16 % 256, v / P8 % 256, v % 256) == v
  {
    var q1 := v / P8;
    var q2 := q1 / 256;
    var q3 := q2 / 256;
    assert v == q1 * 256 + v % 256;
    assert q1 == q2 * 256 + q1 % 256;
    assert q2 == q3 * 256 + q2 % 256;
    assert q2 == v / P16;
    assert q3 == v / P24;
  }

  /** The rendering loses nothing: each version string reads back as the
      u32 it came from, and a non-zero status gives no strings. */
  lemma VersionSpec(status: int, fw: nat, stack: nat, protocol: nat)
    requires fw < P32 && stack < P32 && protocol < P32
    ensures Version(status, fw, stack, protocol).None? <==> status != 0
    ensures status == 0 ==> var v := Version(status, fw, stack, protocol).value;
      ParseDotted(v.0) == Some(fw) && ParseDotted(v.1) == Some(stack) && ParseDotted(v.2) == Some(protocol)
  {
    DottedRoundTrip(fw);
    DottedRoundTrip(stack);
    DottedRoundTrip(protocol);
  }

  lemma DottedRoundTrip(v: nat)
    requires v < P32
    ensures ParseDotted(Dotted(v)) == Some(v)
  {
    var a, b, c, d := DecimalString(v / P24), DecimalString(v / P16 % 256), DecimalString(v / P8 % 256), DecimalString(v % 256);
    DecimalRoundTrip(v / P24);
    DecimalRoundTrip(v / P16 % 256);
    DecimalRoundTrip(v / P8 % 256);
    DecimalRoundTrip(v % 256);
    Recompose(v);
    ParseFour(a, b, c, d);
  }

  /** Four numbers below 256 joined by dots read back as their
      base-256 combination. */
  lemma ParseFour(a: string, b: string, c: string, d: string)
    requires Digits(a) && Digits(b) && Digits(c) && Digits(d)
    requires ParseDecimal(a) < 256 && ParseDecimal(b) < 256 && ParseDecimal(c) < 256 && ParseDecimal(d) < 256
    ensures ParseDotted(a + "." + b + "." + c + "." + d) ==
      Some(Combine(ParseDecimal(a), ParseDecimal(b), ParseDecimal(c), ParseDecimal(d)))
  {
    SplitFour(a, b, c, d);
  }

  /** Splitting four dot-free strings joined by dots gives them back. */
  lemma SplitFour(a: string, b: string, c: string, d: string)
    requires Digits(a) && Digits(b) && Digits(c) && Digits(d)
    ensures Split(a + "." + b + "." + c + "." + d) == [a, b, c, d]
  {
    NoDot(a);
    NoDot(b);
    NoDot(c);
    NoDot(d);
    assert a + "." + b + "." + c + "." + d == a + "." + (b + "." + (c + "." + d));
    SplitAt(a, b + "." + (c + "." + d));
    SplitAt(b, c + "." + d);
    SplitAt(c, d);
    SplitPlain(d);
  }

  lemma NoDot(a: string)
    requires Digits(a)
    ensures '.' !in a
  {
  }

  // ---------------------------------------------------------------- class

  /** The ZBOSS object, with the command table and checksum functions it
      works with. */
  class Zboss {
    const cs: Checksums
    const table: map<HLHeader, CommandClass>
    var listeners: Listeners
    var futures: map<nat, Future>
    var calls: seq<(nat, Command)>
    var rxFragments: seq<Frame>
    var unhandled: seq<Command>
    var sent: seq<Frame>
    var uart: bool
    var app: bool
    var resetLocked: bool
    var nextId: nat

    function State(): ZbossState
      reads this
    {
      ZbossState(listeners, futures, calls, rxFragments, unhandled, sent, uart, app, resetLocked, nextId)
    }

    predicate Valid()
      reads this
    {
      Consistent(State())
    }

    /** `ZBOSS.__init__`: no UART, no application, an empty registry. */
    constructor(cs: Checksums, table: map<HLHeader, CommandClass>)
      ensures Valid() && State() == Fresh()
      ensures this.cs == cs && this.table == table
    {
      this.cs := cs;
      this.table := table;
      listeners := map[];
      futures := map[];
      calls := [];
      rxFragments := [];
      unhandled := [];
      sent := [];
      uart := false;
      app := false;
      resetLocked := false;
      nextId := 0;
    }

    /** connect, which asserts it is not connected yet; opening the port is
        not modelled. */
    method Connect()
      requires !uart
      modifies this`uart
      ensures State() == old(State()).(uart := true)
    {
      uart := true;
    }

    /** set_application, which asserts no application is set yet. */
    method SetApplication()
      requires !app
      modifies this`app
      ensures State() == old(State()).(app := true)
    {
      app := true;
    }

    /** The registration loop shared by wait_for_responses and
        register_indication_listeners. */
    method AddListener(patterns: seq<Command>, oneShot: bool) returns (r: Result<Listener>)
      modifies this`listeners, this`futures, this`nextId
      ensures r == (if patterns == [] then Err(ValueError) else Ok(NewListener(old(State()), patterns, oneShot)))
      ensures State() == (if patterns == [] then old(State()) else Listen(old(State()), patterns, oneShot).value)
    {
      if patterns == [] {
        return Err(ValueError);
      }
      var l := Listener(nextId, oneShot, patterns);
      var hs := MatchingHeaders(patterns);
      var i := 0;
      while i < |hs|
        invariant 0 <= i <= |hs|
        invariant listeners == AppendTo(old(listeners), hs[..i], l)
        invariant futures == old(futures) && nextId == old(nextId)
        decreases |hs| - i
      {
        var h := hs[i];
        assert hs[..i + 1][..i] == hs[..i];
        listeners := listeners[h := Bucket(listeners, h) + [l]];
        i := i + 1;
      }
      assert hs[..|hs|] == hs;
      if oneShot {
        futures := futures[l.id := Pending];
      }
      nextId := nextId + 1;
      return Ok(l);
    }

    /** wait_for_responses: the listener identifies the future. */
    method WaitForResponses(patterns: seq<Command>) returns (r: Result<Listener>)
      requires Valid()
      modifies this`listeners, this`futures, this`nextId
      ensures Valid()
      ensures r == (if patterns == [] then Err(ValueError) else Ok(NewListener(old(State()), patterns, true)))
      ensures State() == (if patterns == [] then old(State()) else Listen(old(State()), patterns, true).value)
    {
      if patterns != [] {
        ListenSpec(State(), patterns, true);
      }
      r := AddListener(patterns, true);
    }

    /** register_indication_listeners. */
    method RegisterIndicationListeners(patterns: seq<Command>) returns (r: Result<Listener>)
      requires Valid()
      modifies this`listeners, this`futures, this`nextId
      ensures Valid()
      ensures r == (if patterns == [] then Err(ValueError) else Ok(NewListener(old(State()), patterns, false)))
      ensures State() == (if patterns == [] then old(State()) else Listen(old(State()), patterns, false).value)
    {
      if patterns != [] {
        ListenSpec(State(), patterns, false);
      }
      r := AddListener(patterns, false);
    }

    /** remove_listener. */
    method RemoveListener(l: Listener)
      modifies this`listeners
      ensures listeners == RemoveFrom(old(listeners), MatchingHeaders(l.patterns), l)
    {
      if |listeners| == 0 {
        return;
      }
      var hs := MatchingHeaders(l.patterns);
      var i := 0;
      while i < |hs|
        invariant 0 <= i <= |hs|
        invariant listeners == RemoveEach(old(listeners), hs[..i], l)
        decreases |hs| - i
      {
        var h := hs[i];
        RemoveEachStep(old(listeners), hs, i, l);
        var b := RemoveFirst(Bucket(listeners, h), l);
        if b == [] {
          listeners := listeners - {h};
        } else {
          listeners := listeners[h := b];
        }
        i := i + 1;
      }
      assert hs[..|hs|] == hs;
    }

    /** `future.cancel()` on a one-shot's future (a caller's or a timeout's),
        followed by its done callback. */
    method Cancel(l: Listener)
      requires Valid()
      modifies this`futures, this`listeners
      ensures Valid()
      ensures State() == CancelFuture(old(State()), l)
    {
      CancelSpec(State(), l);
      if l.oneShot && l.id in futures && futures[l.id].Pending? {
        futures := futures[l.id := Cancelled];
        RemoveListener(l);
      }
    }

    /** The dispatch loop of frame_received for a parsed command. */
    method Dispatch(c: Command) returns (matched: bool)
      modifies this`listeners, this`futures, this`calls, this`unhandled
      ensures (State(), matched) == Deliver(old(State()), c)
    {
      var h := CommandHeader(c);
      if h !in listeners {
        listeners := listeners[h := []];
      }
      var bucket := listeners[h];
      assert listeners == old(listeners)[h := bucket];
      // the listener whose future the walk resolves, if any
      var k := FirstOneShot(bucket, |bucket|, futures, c);
      WalkSpec(bucket, |bucket|, c, futures, calls);
      var oneShotMatched;
      matched, oneShotMatched := WalkBucket(bucket, c);
      if !matched {
        unhandled := unhandled + [c];
      }
      if oneShotMatched {
        RemoveListener(bucket[k]);
      }
    }

    /** The loop over the bucket, with its `matched` and
        `one_shot_matched` flags: `listener.resolve(command)` resolves a
        pending one-shot or calls an indication's callback. */
    method WalkBucket(bucket: seq<Listener>, c: Command) returns (matched: bool, oneShotMatched: bool)
      modifies this`futures, this`calls
      ensures Walk(matched, oneShotMatched, futures, calls) == WalkOver(bucket, |bucket|, c, Walk(false, false, old(futures), old(calls)))
    {
      matched := false;
      oneShotMatched := false;
      var i := 0;
      while i < |bucket|
        invariant 0 <= i <= |bucket|
        invariant Walk(matched, oneShotMatched, futures, calls) == WalkOver(bucket, i, c, Walk(false, false, old(futures), old(calls)))
        decreases |bucket| - i
      {
        var l := bucket[i];
        if oneShotMatched && l.oneShot {
          i := i + 1;
          continue;
        }
        if !Fires(l, futures, c) {
          i := i + 1;
          continue;
        }
        matched := true;
        if l.oneShot {
          oneShotMatched := true;
          futures := futures[l.id := Resolved(c)];
        } else {
          calls := calls + [(l.id, c)];
        }
        i := i + 1;
      }
    }

    /** frame_received for a whole frame. */
    method HandleFrame(f: Frame) returns (r: Result<Option<bool>>)
      requires Valid()
      modifies this`listeners, this`futures, this`calls, this`unhandled
      ensures Valid()
      ensures (State(), r) == Handle(table, old(State()), f)
    {
      if f.hl.None? {
        return Err(AttributeError);
      }
      var header := f.hl.value.header;
      if header.None? || header.value !in table {
        return Ok(None);
      }
      var command := Parse(table[header.value], f);
      if command.Err? {
        return Err(command.error);
      }
      var matched := Dispatch(command.value);
      DeliverKeeps(old(State()), command.value);
      return Ok(Some(matched));
    }

    /** frame_received. */
    method FrameReceived(f: Frame) returns (r: Result<Option<bool>>)
      requires Valid()
      modifies this`listeners, this`futures, this`calls, this`unhandled, this`rxFragments
      ensures Valid()
      ensures (State(), r) == Receive(cs, table, old(State()), f)
    {
      ReceiveCases(cs, table, State(), f);
      if !HasFlag(Flags(f.ll), LastFrag) {
        rxFragments := rxFragments + [f];
        ConsistentFields(old(State()), State());
        return Ok(None);
      }
      var frame := f;
      if rxFragments != [] {
        rxFragments := rxFragments + [f];
        var merged := HandleRxFragmentation(cs, rxFragments);
        if merged.Err? {
          ConsistentFields(old(State()), State());
          return Err(merged.error);
        }
        frame := merged.value;
        rxFragments := [];
        ConsistentFields(old(State()), State());
      }
      r := HandleFrame(frame);
    }

    /** _send_to_uart without a response future: nothing when the UART is
        gone. */
    method SendToUart(frame: Frame)
      modifies this`sent
      ensures sent == if uart then old(sent) + [frame] else old(sent)
    {
      if uart {
        sent := sent + [frame];
      }
    }

    /** _send_frags: the fragments in order, stopping after the first with
        LastFrag, whose send is the one that waits for the response. */
    method SendFrags(fragments: seq<Frame>)
      modifies this`sent
      ensures sent == if uart then old(sent) + UpToLast(fragments) else old(sent)
    {
      var i := 0;
      while i < |fragments|
        invariant 0 <= i <= |fragments|
        invariant forall k :: 0 <= k < i ==> !HasFlag(Flags(fragments[k].ll), LastFrag)
        invariant sent == if uart then old(sent) + fragments[..i] else old(sent)
        decreases |fragments| - i
      {
        var frag := fragments[i];
        assert fragments[..i + 1] == fragments[..i] + [frag];
        SendToUart(frag);
        if HasFlag(Flags(frag.ll), LastFrag) {
          UpToLastSplit(fragments, i);
          assert UpToLast(fragments[i..]) == [frag];
          return;
        }
        i := i + 1;
      }
      UpToLastSplit(fragments, i);
      assert fragments[..|fragments|] == fragments;
    }

    /** request: the checks, then the frame, its fragments, the response
        listener and the sends. */
    method Request(request: Command) returns (r: Result<Listener>)
      requires Valid()
      modifies this`listeners, this`futures, this`nextId, this`sent
      ensures Valid()
      ensures (State(), r) == Requested(old(State()), request)
    {
      if request.cls.kind != ReqKind {
        return Err(ValueError);
      }
      if !uart {
        return Err(RuntimeError);
      }
      var frame := ToFrame(request);
      if frame.Err? {
        return Err(frame.error);
      }
      var fragments := HandleTxFragmentation(frame.value);
      if fragments.Err? {
        return Err(fragments.error);
      }
      var pattern := New(Partner(request.cls).value, true, []);
      if pattern.Err? {
        return Err(pattern.error);
      }
      r := AddListener([pattern.value], true);
      SendFrags(fragments.value);
      RequestSpec(old(State()), request);
    }

    /** disconnect: unless a reset holds the lock, the application is
        dropped, every listener cancelled and the registry cleared; the UART
        goes in every case. */
    method Disconnect()
      requires Valid()
      modifies this`app, this`futures, this`listeners, this`uart
      ensures Valid()
      ensures State() == Disconnected(old(State()))
    {
      if !resetLocked {
        app := false;
        CancelAll();
        listeners := map[];
      }
      if uart {
        uart := false;
      }
      DisconnectSpec(old(State()));
    }

    /** The outer loop of disconnect over the registry's items. */
    method CancelAll()
      modifies this`futures
      ensures futures == CancelIds(old(futures), OneShotIdsIn(listeners, listeners.Keys))
    {
      ghost var f0 := futures;
      var keys := listeners.Keys;
      ghost var done: set<HLHeader> := {};
      while keys != {}
        invariant keys <= listeners.Keys && done == listeners.Keys - keys
        invariant futures == CancelIds(f0, OneShotIdsIn(listeners, done))
        decreases keys
      {
        var h :| h in keys;
        CancelBucket(listeners[h], f0, OneShotIdsIn(listeners, done));
        IdsOfKey(listeners, done, h);
        keys := keys - {h};
        done := done + {h};
      }
    }

    /** The inner loop: `listener.cancel()` for each listener of a bucket. */
    method CancelBucket(bucket: seq<Listener>, ghost f0: map<nat, Future>, ghost before: set<nat>)
      requires futures == CancelIds(f0, before)
      modifies this`futures
      ensures futures == CancelIds(f0, before + OneShotIdsOf(bucket))
    {
      var j := 0;
      assert before + OneShotIdsOf(bucket[..0]) == before;
      while j < |bucket|
        invariant 0 <= j <= |bucket|
        invariant futures == CancelIds(f0, before + OneShotIdsOf(bucket[..j]))
        decreases |bucket| - j
      {
        var l := bucket[j];
        ghost var ids := before + OneShotIdsOf(bucket[..j]);
        IdsOfPrefix(bucket, j);
        if l.oneShot {
          CancelStep(f0, ids, l.id);
          assert before + OneShotIdsOf(bucket[..j + 1]) == ids + {l.id};
          if l.id in futures && futures[l.id].Pending? {
            futures := futures[l.id := Cancelled];
          }
        } else {
          assert before + OneShotIdsOf(bucket[..j + 1]) == ids;
        }
        j := j + 1;
      }
      assert bucket[..|bucket|] == bucket;
    }
  }
}
