/**
 * The CAN transmit queue as two FIFOs, and what they promise. Class CanTransport (CanTransport.dfy)
 * keeps one array in which the high-priority messages stand in front, and is proved to implement them.
 */
module TxQueue {
  import opened Machine

  const CAPACITY := 16
  const MAX_STANDARD_ID := 0x7FF
  const MAX_EXTENDED_ID := 0x1FFF_FFFF

  datatype Message = Message(id: u32, extended: bool, data: seq<u8>, high: bool, newestOnly: bool)

  /** What the hardware does with a message offered to it. */
  datatype Hardware = Taken | NoRoom | HalError

  datatype Result = Sent | Queued | NotInitialized | InvalidId | QueueFull

  /** The three public ways to send: events in front, states replaceable, the rest in order. */
  predicate Sendable(m: Message) {
    |m.data| == 8 && !(m.high && m.newestOnly)
  }

  predicate SameKey(m: Message, n: Message) {
    m.id == n.id && m.extended == n.extended && m.newestOnly && n.newestOnly
  }

  // ---------------------------------------------------------------- specification

  /**
   * Two FIFOs, with what has been accepted and what has been handed to the hardware so far, each
   * in order; how much had been accepted when each message was handed over; and how many went
   * which way.
   */
  datatype Spec = Spec(high: seq<Message>, normal: seq<Message>, sent: seq<Message>,
                       accepted: seq<Message>, handed: seq<nat>,
                       enqueued: nat, sentFromQueue: nat, evicted: nat)

  const EMPTY := Spec([], [], [], [], [], 0, 0, 0)

  function Waiting(s: Spec): (q: seq<Message>) {
    s.high + s.normal
  }

  /** The message is accepted: later it must be found sent or waiting. */
  function Accepted(s: Spec, m: Message): (r: Spec) {
    s.(accepted := s.accepted + [m])
  }

  function Handed(s: Spec, m: Message): (r: Spec) {
    s.(sent := s.sent + [m], handed := s.handed + [|s.accepted|])
  }

  /** The first waiting message with the same key. */
  function Find(q: seq<Message>, m: Message): (i: nat)
    ensures i <= |q|
    ensures i < |q| ==> SameKey(q[i], m)
    ensures forall j :: 0 <= j < i ==> !SameKey(q[j], m)
  {
    if q == [] || SameKey(q[0], m) then 0 else 1 + Find(q[1..], m)
  }

  /** The last replaceable message; the length if there is none. */
  function LastEvictable(q: seq<Message>): (i: nat)
    ensures i <= |q|
    ensures i < |q| ==> q[i].newestOnly && forall j :: i < j < |q| ==> !q[j].newestOnly
    ensures i == |q| ==> forall j :: 0 <= j < |q| ==> !q[j].newestOnly
  {
    if q == [] then 0
    else if q[|q| - 1].newestOnly then |q| - 1
    else
      var i := LastEvictable(q[..|q| - 1]);
      if i == |q| - 1 then |q| else i
  }

  function Without(q: seq<Message>, i: nat): (r: seq<Message>)
    requires i < |q|
  {
    q[..i] + q[i + 1..]
  }

  function Enqueue(s: Spec, m: Message): (r: (Result, Spec)) {
    if |Waiting(s)| < CAPACITY then (Queued, Insert(s, m))
    else
      var i := LastEvictable(s.normal);
      if !m.high || i == |s.normal| then (QueueFull, s)
      else (Queued, Insert(Evict(s, i), m))
  }

  function Evict(s: Spec, i: nat): (r: Spec)
    requires i < |s.normal|
  {
    s.(normal := Without(s.normal, i), evicted := s.evicted + 1)
  }

  function Insert(s: Spec, m: Message): (r: Spec) {
    var accepted := Accepted(s, m).(enqueued := s.enqueued + 1);
    if m.high then accepted.(high := s.high + [m]) else accepted.(normal := s.normal + [m])
  }

  /** One submission, with the answer of the hardware should it be asked. */
  function Submit(s: Spec, m: Message, hw: Hardware): (r: (Result, Spec)) {
    var i := Find(s.normal, m);
    if Waiting(s) == [] && hw == Taken then (Sent, Handed(Accepted(s, m), m))
    else if m.newestOnly && i < |s.normal| then
      (Queued, Accepted(s, m).(normal := s.normal[i := s.normal[i].(data := m.data)]))
    else Enqueue(s, m)
  }

  /** The hardware takes the message at the front. */
  function SendHead(s: Spec): (r: Spec)
    requires Waiting(s) != []
  {
    var t := Handed(s, Waiting(s)[0]).(sentFromQueue := s.sentFromQueue + 1);
    if s.high != [] then t.(high := s.high[1..]) else t.(normal := s.normal[1..])
  }

  function SendHeads(s: Spec, n: nat): (r: Spec)
    requires n <= |Waiting(s)|
    ensures |Waiting(r)| == |Waiting(s)| - n
  {
    if n == 0 then s else SendHead(SendHeads(s, n - 1))
  }

  // ---------------------------------------------------------------- what is promised

  predicate IsPlain(m: Message) {
    !m.high && !m.newestOnly
  }

  function HighOf(q: seq<Message>): (r: seq<Message>) {
    if q == [] then []
    else HighOf(q[..|q| - 1]) + if q[|q| - 1].high then [q[|q| - 1]] else []
  }

  function PlainOf(q: seq<Message>): (r: seq<Message>) {
    if q == [] then []
    else PlainOf(q[..|q| - 1]) + if IsPlain(q[|q| - 1]) then [q[|q| - 1]] else []
  }

  /** Where the last message with the key of `m` stands; -1 if there is none. */
  function LastOf(q: seq<Message>, m: Message): (k: int)
    ensures -1 <= k < |q|
    ensures k >= 0 ==> SameKey(q[k], m)
    ensures forall j :: k < j < |q| ==> !SameKey(q[j], m)
  {
    if q == [] then -1
    else if SameKey(q[|q| - 1], m) then |q| - 1
    else LastOf(q[..|q| - 1], m)
  }

  /** Of its key, `m` is the newest in the list. */
  predicate IsNewest(q: seq<Message>, m: Message) {
    var k := LastOf(q, m);
    k >= 0 && q[k] == m
  }

  /** High-priority messages reach the hardware in submission order, none missing. */
  predicate HighInOrder(s: Spec) {
    HighOf(s.accepted) == HighOf(s.sent) + s.high
  }

  /** So do those that are neither high-priority nor replaceable. */
  predicate PlainInOrder(s: Spec) {
    PlainOf(s.accepted) == PlainOf(s.sent) + PlainOf(s.normal)
  }

  /** What waits for a replaceable key is the newest accepted for it, once. */
  predicate NewestWaits(s: Spec) {
    && (forall i :: 0 <= i < |s.normal| && s.normal[i].newestOnly ==> IsNewest(s.accepted, s.normal[i]))
    && forall i, j :: 0 <= i < j < |s.normal| ==> !SameKey(s.normal[i], s.normal[j])
  }

  predicate HandedInTime(s: Spec) {
    |s.handed| == |s.sent| && forall i :: 0 <= i < |s.handed| ==> s.handed[i] <= |s.accepted|
  }

  /** Every replaceable message sent was the newest accepted for its key when it was handed over. */
  predicate NewestWasSent(s: Spec)
    requires HandedInTime(s)
  {
    forall i :: 0 <= i < |s.sent| && s.sent[i].newestOnly ==>
      IsNewest(s.accepted[..s.handed[i]], s.sent[i])
  }

  /** Where in the order of acceptance the replaceable message sent as number `i` stands. */
  function Origin(s: Spec, i: nat): (k: int)
    requires HandedInTime(s) && i < |s.sent|
    ensures k < |s.accepted|
  {
    LastOf(s.accepted[..s.handed[i]], s.sent[i])
  }

  /** Of a key, what is sent later was accepted later, and what waits was accepted after all sent. */
  predicate NewerFollow(s: Spec)
    requires HandedInTime(s)
  {
    && (forall i, j :: 0 <= i < j < |s.sent| && SameKey(s.sent[i], s.sent[j]) ==> Origin(s, i) < Origin(s, j))
    && (forall i, j :: 0 <= i < |s.sent| && 0 <= j < |s.normal| && SameKey(s.sent[i], s.normal[j]) ==>
          Origin(s, i) < LastOf(s.accepted, s.normal[j]))
  }

  predicate NewestInOrder(s: Spec) {
    NewestWaits(s) && HandedInTime(s) && NewestWasSent(s) && NewerFollow(s)
  }

  predicate Shaped(s: Spec) {
    && |Waiting(s)| <= CAPACITY
    && (forall m :: m in s.high ==> m.high && Sendable(m))
    && (forall m :: m in s.normal ==> !m.high && Sendable(m))
    && s.enqueued == s.sentFromQueue + s.evicted + |Waiting(s)|
  }

  predicate Kept(s: Spec) {
    Shaped(s) && HighInOrder(s) && PlainInOrder(s) && NewestInOrder(s)
  }

  lemma HighAppend(q: seq<Message>, m: Message)
    ensures HighOf(q + [m]) == HighOf(q) + if m.high then [m] else []
  {
    assert (q + [m])[..|q|] == q;
  }

  lemma PlainAppend(q: seq<Message>, m: Message)
    ensures PlainOf(q + [m]) == PlainOf(q) + if IsPlain(m) then [m] else []
  {
    assert (q + [m])[..|q|] == q;
  }

  /** Removing a message that is not plain, or changing its payload, leaves the plain ones alone. */
  lemma {:induction false} PlainWithout(q: seq<Message>, i: nat)
    requires i < |q| && !IsPlain(q[i])
    ensures PlainOf(Without(q, i)) == PlainOf(q)
  {
    var n := |q| - 1;
    if i == n {
      assert Without(q, i) == q[..n];
    } else {
      PlainWithout(q[..n], i);
      assert Without(q, i) == Without(q[..n], i) + [q[n]];
      PlainAppend(Without(q[..n], i), q[n]);
    }
  }

  lemma {:induction false} PlainRewritten(q: seq<Message>, i: nat, data: seq<u8>)
    requires i < |q| && !IsPlain(q[i])
    ensures PlainOf(q[i := q[i].(data := data)]) == PlainOf(q)
  {
    var n, m := |q| - 1, q[i].(data := data);
    if i == n {
      assert q[i := m] == q[..n] + [m];
      PlainAppend(q[..n], m);
    } else {
      PlainRewritten(q[..n], i, data);
      assert q[i := m] == q[..n][i := m] + [q[n]];
      PlainAppend(q[..n][i := m], q[n]);
    }
  }

  lemma {:induction false} PlainTail(q: seq<Message>)
    requires q != []
    ensures PlainOf(q) == (if IsPlain(q[0]) then [q[0]] else []) + PlainOf(q[1..])
    decreases |q|
  {
    var n := |q| - 1;
    if n > 0 {
      PlainTail(q[..n]);
      assert q[1..][..n - 1] == q[..n][1..];
    }
  }

  // ---------------------------------------------------------------- replaceable messages

  lemma LastAppend(q: seq<Message>, m: Message, n: Message)
    ensures LastOf(q + [m], n) == if SameKey(m, n) then |q| else LastOf(q, n)
    ensures IsNewest(q + [m], n) <==> if SameKey(m, n) then m == n else IsNewest(q, n)
  {
    assert (q + [m])[..|q|] == q;
  }

  /** What has been sent does not depend on what is accepted later. */
  lemma OriginStays(s: Spec, m: Message)
    requires HandedInTime(s)
    ensures HandedInTime(Accepted(s, m))
    ensures forall i :: 0 <= i < |s.sent| ==>
              && Accepted(s, m).accepted[..s.handed[i]] == s.accepted[..s.handed[i]]
              && Origin(Accepted(s, m), i) == Origin(s, i)
  {
    hide LastOf;
    var t := Accepted(s, m);
    forall i | 0 <= i < |s.sent|
      ensures t.accepted[..s.handed[i]] == s.accepted[..s.handed[i]] && Origin(t, i) == Origin(s, i)
    {
      assert t.handed[i] <= |s.accepted|;
    }
  }

  /** A message is accepted, and what waits is `normal`: as before, without its key, or `m` itself. */
  lemma AcceptedKeepsOrder(s: Spec, m: Message, normal: seq<Message>)
    requires NewestInOrder(s)
    requires forall j :: 0 <= j < |normal| ==>
               normal[j] == m || (normal[j] in s.normal && !SameKey(m, normal[j]))
    requires forall i, j :: 0 <= i < j < |normal| ==> !SameKey(normal[i], normal[j])
    ensures NewestInOrder(Accepted(s, m).(normal := normal))
  {
    hide IsNewest, LastOf, SameKey;
    var a := Accepted(s, m);
    var t := a.(normal := normal);
    OriginStays(s, m);
    assert forall i :: 0 <= i < |t.sent| ==> Origin(t, i) == Origin(s, i);
    forall j | 0 <= j < |normal| && normal[j].newestOnly
      ensures IsNewest(t.accepted, normal[j])
      ensures forall i :: 0 <= i < |t.sent| && SameKey(t.sent[i], normal[j]) ==>
                            Origin(t, i) < LastOf(t.accepted, normal[j])
    {
      LastAppend(s.accepted, m, normal[j]);
      OwnKey(m);
      if normal[j] != m {
        var k :| 0 <= k < |s.normal| && s.normal[k] == normal[j];
      }
    }
    Keyed();
  }

  lemma OwnKey(m: Message)
    ensures SameKey(m, m) <==> m.newestOnly
  {
  }

  lemma Keyed()
    ensures forall m, n :: SameKey(m, n) ==> m.newestOnly && n.newestOnly
  {
  }

  lemma SameKeys(a: Message, b: Message, c: Message)
    requires SameKey(a, b) && SameKey(a, c)
    ensures SameKey(b, c) && SameKey(c, b)
  {
  }

  /** The newest of a key is handed over, and no other of that key goes on waiting. */
  lemma HandedKeepsOrder(s: Spec, m: Message, normal: seq<Message>)
    requires NewestInOrder(s) && (m.newestOnly ==> IsNewest(s.accepted, m))
    requires forall i :: 0 <= i < |s.sent| && SameKey(s.sent[i], m) ==> Origin(s, i) < LastOf(s.accepted, m)
    requires forall j :: 0 <= j < |normal| ==> normal[j] in s.normal && !SameKey(m, normal[j])
    requires forall i, j :: 0 <= i < j < |normal| ==> !SameKey(normal[i], normal[j])
    ensures NewestInOrder(Handed(s, m).(normal := normal))
  {
    hide IsNewest, LastOf, SameKey, Origin, HandedInTime;
    var t := Handed(s, m).(normal := normal);
    HandedOrigins(s, m, normal);
    forall j | 0 <= j < |normal|
      ensures normal[j].newestOnly ==> IsNewest(t.accepted, normal[j])
      ensures forall i :: 0 <= i < |t.sent| && SameKey(t.sent[i], normal[j]) ==>
                            Origin(t, i) < LastOf(t.accepted, normal[j])
    {
      var k :| 0 <= k < |s.normal| && s.normal[k] == normal[j];
      forall i | 0 <= i < |t.sent| && SameKey(t.sent[i], normal[j])
        ensures Origin(t, i) < LastOf(t.accepted, normal[j])
      {
        assert i < |s.sent|;
      }
    }
    SentInOrder(s, m, t);
  }

  lemma SentInOrder(s: Spec, m: Message, t: Spec)
    requires HandedInTime(s) && HandedInTime(t) && NewerFollow(s)
    requires t.sent == s.sent + [m] && t.accepted == s.accepted
    requires forall i :: 0 <= i < |s.sent| ==> Origin(t, i) == Origin(s, i)
    requires forall i :: 0 <= i < |s.sent| && SameKey(s.sent[i], m) ==> Origin(s, i) < Origin(t, |s.sent|)
    ensures forall i, j :: 0 <= i < j < |t.sent| && SameKey(t.sent[i], t.sent[j]) ==> Origin(t, i) < Origin(t, j)
  {
    hide LastOf, SameKey, Origin, HandedInTime;
    forall i, j | 0 <= i < j < |t.sent| && SameKey(t.sent[i], t.sent[j])
      ensures Origin(t, i) < Origin(t, j)
    {
      if j < |s.sent| {
        assert SameKey(s.sent[i], s.sent[j]);
      }
    }
  }

  lemma HandedOrigins(s: Spec, m: Message, normal: seq<Message>)
    requires HandedInTime(s) && NewestWasSent(s) && (m.newestOnly ==> IsNewest(s.accepted, m))
    ensures var t := Handed(s, m).(normal := normal);
            && HandedInTime(t) && NewestWasSent(t) && Origin(t, |s.sent|) == LastOf(s.accepted, m)
            && forall i :: 0 <= i < |s.sent| ==> Origin(t, i) == Origin(s, i)
  {
    hide IsNewest, LastOf, SameKey;
    assert s.accepted[..|s.accepted|] == s.accepted;
  }

  /** Fewer may wait. */
  lemma FewerKeepsOrder(s: Spec, i: nat)
    requires NewestInOrder(s) && i < |s.normal|
    ensures NewestInOrder(s.(normal := Without(s.normal, i)))
  {
    hide IsNewest, LastOf, SameKey;
    var t := s.(normal := Without(s.normal, i));
    assert forall k :: 0 <= k < |t.sent| ==> Origin(t, k) == Origin(s, k);
    assert forall j :: 0 <= j < |t.normal| ==> t.normal[j] == s.normal[if j < i then j else j + 1];
  }

  // ---------------------------------------------------------------- every operation keeps it

  lemma SubmitKeeps(s: Spec, m: Message, hw: Hardware)
    requires Kept(s) && Sendable(m)
    ensures Kept(Submit(s, m, hw).1)
    ensures Submit(s, m, hw).0 in {Sent, Queued} ==> Submit(s, m, hw).1.accepted == s.accepted + [m]
    ensures Submit(s, m, hw).0 !in {Sent, Queued} ==> Submit(s, m, hw).1 == s
  {
    hide Kept, Evict, Insert;
    var i := Find(s.normal, m);
    if Waiting(s) == [] && hw == Taken {
      DirectKeeps(s, m);
    } else if m.newestOnly && i < |s.normal| {
      CoalesceKeeps(s, m, i);
    } else if |Waiting(s)| < CAPACITY {
      InsertKeeps(s, m);
    } else {
      var e := LastEvictable(s.normal);
      if m.high && e < |s.normal| {
        EvictKeeps(s, e);
        InsertKeeps(Evict(s, e), m);
      }
    }
    AcceptedIs(s, m, hw);
  }

  lemma AcceptedIs(s: Spec, m: Message, hw: Hardware)
    ensures var (r, t) := Submit(s, m, hw);
            && (r in {Sent, Queued} ==> t.accepted == s.accepted + [m])
            && (r !in {Sent, Queued} ==> t == s)
  {
  }

  lemma DirectKeeps(s: Spec, m: Message)
    requires Kept(s) && Sendable(m) && Waiting(s) == []
    ensures Kept(Handed(Accepted(s, m), m))
  {
    hide HighOf, PlainOf, SameKey, NewestInOrder, LastOf, IsNewest;
    HighAppend(s.sent, m);
    PlainAppend(s.sent, m);
    HighAppend(s.accepted, m);
    PlainAppend(s.accepted, m);
    assert |s.high| == 0 && |s.normal| == 0;
    assert s.high == [] && s.normal == [];
    NothingWaits();
    DirectInOrder(s, m);
    var t := Handed(Accepted(s, m), m);
    assert HighInOrder(t) && PlainInOrder(t);
  }

  lemma DirectInOrder(s: Spec, m: Message)
    requires NewestInOrder(s) && s.normal == []
    ensures NewestInOrder(Handed(Accepted(s, m), m))
  {
    hide SameKey, LastOf, IsNewest;
    var a := Accepted(s, m);
    OriginStays(s, m);
    AcceptedKeepsOrder(s, m, []);
    assert a == a.(normal := []);
    LastAppend(s.accepted, m, m);
    OwnKey(m);
    Keyed();
    forall i | 0 <= i < |a.sent|
      ensures Origin(a, i) < |s.accepted|
    {
      assert Origin(a, i) == Origin(s, i);
    }
    HandedKeepsOrder(a, m, []);
    assert Handed(a, m) == Handed(a, m).(normal := []);
  }

  lemma NothingWaits()
    ensures HighOf([]) == [] && PlainOf([]) == []
  {
  }

  lemma CoalesceKeeps(s: Spec, m: Message, i: nat)
    requires Kept(s) && Sendable(m) && m.newestOnly && i < |s.normal| && SameKey(s.normal[i], m)
    ensures Kept(Accepted(s, m).(normal := s.normal[i := s.normal[i].(data := m.data)]))
  {
    hide HighOf, PlainOf, NewestInOrder;
    HighAppend(s.accepted, m);
    PlainAppend(s.accepted, m);
    PlainRewritten(s.normal, i, m.data);
    CoalescedInOrder(s, m, i);
  }

  lemma CoalescedInOrder(s: Spec, m: Message, i: nat)
    requires NewestInOrder(s) && m.newestOnly && i < |s.normal| && SameKey(s.normal[i], m)
    requires !m.high && !s.normal[i].high
    ensures NewestInOrder(Accepted(s, m).(normal := s.normal[i := s.normal[i].(data := m.data)]))
  {
    hide IsNewest, LastOf, HandedInTime, NewestWasSent, NewerFollow;
    var normal := s.normal[i := s.normal[i].(data := m.data)];
    assert normal[i] == m;
    forall j, k | 0 <= j < k < |normal|
      ensures !SameKey(normal[j], normal[k])
    {
      assert !SameKey(s.normal[j], s.normal[k]);
    }
    forall j | 0 <= j < |normal| && j != i
      ensures normal[j] in s.normal && !SameKey(m, normal[j])
    {
      assert normal[j] == s.normal[j];
      assert !SameKey(s.normal[if i < j then i else j], s.normal[if i < j then j else i]);
    }
    AcceptedKeepsOrder(s, m, normal);
  }

  lemma EvictKeeps(s: Spec, i: nat)
    requires Kept(s) && i < |s.normal| && s.normal[i].newestOnly
    ensures Kept(Evict(s, i)) && |Waiting(Evict(s, i))| < CAPACITY
  {
    hide HighOf, PlainOf, NewestInOrder;
    PlainWithout(s.normal, i);
    FewerKeepsOrder(s, i);
    EvictedInOrder(s, i);
  }

  lemma EvictedInOrder(s: Spec, i: nat)
    requires i < |s.normal| && NewestInOrder(s.(normal := Without(s.normal, i)))
    ensures NewestInOrder(Evict(s, i))
  {
    hide IsNewest, LastOf, SameKey;
    var t, e := s.(normal := Without(s.normal, i)), Evict(s, i);
    assert HandedInTime(e);
    assert forall k :: 0 <= k < |t.sent| ==> Origin(t, k) == Origin(e, k);
  }

  lemma InsertKeeps(s: Spec, m: Message)
    requires Kept(s) && Sendable(m) && |Waiting(s)| < CAPACITY
    requires m.newestOnly ==> Find(s.normal, m) == |s.normal|
    ensures Kept(Insert(s, m))
  {
    PlainAppend(s.normal, m);
    HighAppend(s.accepted, m);
    PlainAppend(s.accepted, m);
    hide HighOf, PlainOf, NewestInOrder;
    var t := Insert(s, m);
    assert Shaped(t);
    assert HighInOrder(t);
    assert PlainInOrder(t);
    InsertedInOrder(s, m);
  }

  lemma InsertedInOrder(s: Spec, m: Message)
    requires NewestInOrder(s) && Sendable(m)
    requires m.newestOnly ==> Find(s.normal, m) == |s.normal|
    ensures NewestInOrder(Insert(s, m))
  {
    hide IsNewest, LastOf, HandedInTime, NewestWasSent, NewerFollow;
    var t := Insert(s, m);
    forall j | 0 <= j < |s.normal|
      ensures !SameKey(m, s.normal[j]) && !SameKey(s.normal[j], m)
    {
    }
    AcceptedKeepsOrder(s, m, t.normal);
    CountersApart(Accepted(s, m).(normal := t.normal), t);
  }

  /** Only the two lists, what waits behind and the hand-overs matter. */
  lemma CountersApart(s: Spec, t: Spec)
    requires NewestInOrder(s)
    requires t.sent == s.sent && t.accepted == s.accepted && t.handed == s.handed && t.normal == s.normal
    ensures NewestInOrder(t)
  {
    hide IsNewest, LastOf, SameKey;
    assert HandedInTime(t);
    assert forall k :: 0 <= k < |t.sent| ==> Origin(t, k) == Origin(s, k);
  }

  lemma SendHighKeeps(s: Spec)
    requires Kept(s) && s.high != []
    ensures Kept(SendHead(s))
  {
    hide HighOf, PlainOf, SameKey, NewestInOrder;
    var m := s.high[0];
    assert Waiting(s)[0] == m && m in s.high;
    assert s.high == [m] + s.high[1..];
    HighAppend(s.sent, m);
    PlainAppend(s.sent, m);
    assert HighOf(s.sent) + s.high == (HighOf(s.sent) + [m]) + s.high[1..];
    HighHandedInOrder(s, m);
    CountersApart(Handed(s, m).(normal := s.normal), SendHead(s));
  }

  lemma HighHandedInOrder(s: Spec, m: Message)
    requires NewestInOrder(s) && !m.newestOnly
    ensures NewestInOrder(Handed(s, m).(normal := s.normal))
  {
    hide IsNewest, LastOf, HandedInTime, NewestWasSent, NewerFollow;
    HandedKeepsOrder(s, m, s.normal);
  }

  lemma SendNormalKeeps(s: Spec)
    requires Kept(s) && s.high == [] && s.normal != []
    ensures Kept(SendHead(s))
  {
    hide HighOf, PlainOf, NewestInOrder, SameKey;
    var m := s.normal[0];
    assert Waiting(s)[0] == m && m in s.normal;
    HighAppend(s.sent, m);
    PlainAppend(s.sent, m);
    PlainTail(s.normal);
    FrontHandedInOrder(s);
    CountersApart(Handed(s, m).(normal := s.normal[1..]), SendHead(s));
    var t := SendHead(s);
    assert PlainOf(s.sent) + PlainOf(s.normal) == PlainOf(t.sent) + PlainOf(t.normal);
  }

  lemma FrontHandedInOrder(s: Spec)
    requires NewestInOrder(s) && s.normal != []
    ensures NewestInOrder(Handed(s, s.normal[0]).(normal := s.normal[1..]))
  {
    hide IsNewest, LastOf, HandedInTime, NewestWasSent, Origin, SameKey;
    assert forall i :: 0 <= i < |s.normal[1..]| ==> s.normal[1..][i] == s.normal[i + 1];
    HandedKeepsOrder(s, s.normal[0], s.normal[1..]);
  }

  lemma SendHeadKeeps(s: Spec)
    requires Kept(s) && Waiting(s) != []
    ensures Kept(SendHead(s))
  {
    hide Kept, SendHead;
    if s.high != [] {
      SendHighKeeps(s);
    } else {
      SendNormalKeeps(s);
    }
  }

  /** All histories: submissions with any hardware answers, and drains of any length. */
  datatype Event = Submits(m: Message, hw: Hardware) | Drains(n: nat)

  function After(events: seq<Event>): (s: Spec) {
    if events == [] then EMPTY
    else
      var s := After(events[..|events| - 1]);
      match events[|events| - 1]
      case Submits(m, hw) => if Sendable(m) then Submit(s, m, hw).1 else s
      case Drains(n) => SendHeads(s, if n < |Waiting(s)| then n else |Waiting(s)|)
  }

  lemma {:induction false} SendHeadsKeeps(s: Spec, n: nat)
    requires Kept(s) && n <= |Waiting(s)|
    ensures Kept(SendHeads(s, n))
  {
    hide Kept, SendHead;
    if n > 0 {
      SendHeadsKeeps(s, n - 1);
      SendHeadKeeps(SendHeads(s, n - 1));
    }
  }

  lemma {:induction false} EveryHistoryIsKept(events: seq<Event>)
    ensures Kept(After(events))
  {
    if events != [] {
      var s := After(events[..|events| - 1]);
      EveryHistoryIsKept(events[..|events| - 1]);
      match events[|events| - 1] {
        case Submits(m, hw) => if Sendable(m) { SubmitKeeps(s, m, hw); }
        case Drains(n) => SendHeadsKeeps(s, if n < |Waiting(s)| then n else |Waiting(s)|);
      }
    }
  }

  // ---------------------------------------------------------------- nothing newest is lost

  /** Unless something has been evicted, the newest of every replaceable key is sent or waits. */
  predicate NewestIsKept(s: Spec) {
    s.evicted == 0 ==>
      forall k :: 0 <= k < |s.accepted| && s.accepted[k].newestOnly && LastOf(s.accepted, s.accepted[k]) == k ==>
        s.accepted[k] in s.sent || s.accepted[k] in s.normal
  }

  lemma SubmitLosesNone(s: Spec, m: Message, hw: Hardware)
    requires Kept(s) && Sendable(m) && NewestIsKept(s)
    ensures NewestIsKept(Submit(s, m, hw).1)
  {
    hide Kept, LastOf, SameKey, Submit;
    var t := Submit(s, m, hw).1;
    AcceptedIs(s, m, hw);
    if t.evicted == 0 && t != s {
      SubmitKeepsOthers(s, m, hw);
      forall k | 0 <= k < |t.accepted| && t.accepted[k].newestOnly && LastOf(t.accepted, t.accepted[k]) == k
        ensures t.accepted[k] in t.sent || t.accepted[k] in t.normal
      {
        if k < |s.accepted| {
          LastAppend(s.accepted, m, s.accepted[k]);
        }
      }
    }
  }

  /** Without an eviction, only what the new message replaces leaves the queue. */
  lemma SubmitKeepsOthers(s: Spec, m: Message, hw: Hardware)
    requires Kept(s) && Sendable(m) && Submit(s, m, hw).1.evicted == 0
    ensures var (r, t) := Submit(s, m, hw);
            && s.evicted == 0 && t.sent[..|s.sent|] == s.sent
            && (forall n :: n in s.normal && !SameKey(m, n) ==> n in t.normal)
            && (m.newestOnly && r in {Sent, Queued} ==> m in t.sent || m in t.normal)
  {
    hide HighInOrder, PlainInOrder, NewestInOrder;
    var i := Find(s.normal, m);
    if m.newestOnly && i < |s.normal| && !(Waiting(s) == [] && hw == Taken) {
      assert s.normal[i] in s.normal;
      CoalesceKeepsOthers(s.normal, m, i);
    }
  }

  lemma CoalesceKeepsOthers(normal: seq<Message>, m: Message, i: nat)
    requires i < |normal| && SameKey(normal[i], m) && normal[i].high == m.high
    ensures var after := normal[i := normal[i].(data := m.data)];
            m in after && forall n :: n in normal && !SameKey(m, n) ==> n in after
  {
    var after := normal[i := normal[i].(data := m.data)];
    assert after[i] == m;
    forall n | n in normal && !SameKey(m, n)
      ensures n in after
    {
      var j :| 0 <= j < |normal| && normal[j] == n;
      assert after[j] == n;
    }
  }

  lemma {:induction false} SendsLoseNone(s: Spec, n: nat)
    requires Kept(s) && n <= |Waiting(s)| && NewestIsKept(s)
    ensures NewestIsKept(SendHeads(s, n))
  {
    hide Kept, LastOf;
    if n > 0 {
      SendsLoseNone(s, n - 1);
      var before := SendHeads(s, n - 1);
      if before.high == [] {
        assert before.normal == [before.normal[0]] + before.normal[1..];
      }
    }
  }

  lemma {:induction false} NewestIsNeverLost(events: seq<Event>)
    ensures NewestIsKept(After(events))
  {
    if events != [] {
      var s := After(events[..|events| - 1]);
      NewestIsNeverLost(events[..|events| - 1]);
      EveryHistoryIsKept(events[..|events| - 1]);
      hide Kept, NewestIsKept, Submit, Sendable, SendHeads;
      match events[|events| - 1] {
        case Submits(m, hw) => if Sendable(m) { SubmitLosesNone(s, m, hw); }
        case Drains(n) => SendsLoseNone(s, if n < |Waiting(s)| then n else |Waiting(s)|);
      }
    }
  }

  // ---------------------------------------------------------------- what is accepted

  /** The waiting message at `i` may be replaced by a newer one of the same identifier and kind. */
  predicate WaitsForKey(s: Spec, m: Message, i: nat)
    requires i < |s.high| + |s.normal|
  {
    var w := (s.high + s.normal)[i];
    m.newestOnly && w.newestOnly && w.id == m.id && w.extended == m.extended
  }

  ghost predicate KeyWaits(s: Spec, m: Message) {
    exists i :: 0 <= i < |s.high| + |s.normal| && WaitsForKey(s, m, i)
  }

  ghost predicate SomeReplaceable(s: Spec) {
    exists i :: 0 <= i < |s.high| + |s.normal| && (s.high + s.normal)[i].newestOnly
  }

  /** Without the entry at `e`, the replaceable one that was nearest the back. */
  predicate GaveUpLast(s: Spec, t: Spec, e: nat)
    requires e < |s.normal|
  {
    && s.normal[e].newestOnly && (forall j :: e < j < |s.normal| ==> !s.normal[j].newestOnly)
    && t.normal == s.normal[..e] + s.normal[e + 1..]
  }

  /**
   * A submission is sent exactly if nothing waits and the hardware takes it. It is refused exactly if
   * sixteen messages wait, none of them for the same key, and it is not a high-priority one for which
   * a replaceable one could give way. Otherwise it is queued.
   */
  lemma SubmissionIsExact(s: Spec, m: Message, hw: Hardware)
    requires Kept(s) && Sendable(m)
    ensures var (r, t) := Submit(s, m, hw);
            var full := |s.high| + |s.normal| == 16;
            && (r == Sent <==> s.high == s.normal == [] && hw == Taken)
            && (r == QueueFull <==> full && !KeyWaits(s, m) && !(m.high && SomeReplaceable(s)))
            && r in {Sent, Queued, QueueFull}
            && (r == QueueFull ==> t == s)
            && (r == Sent ==> t.sent == s.sent + [m] && t.high == t.normal == [])
            && (r == Queued ==> t.sent == s.sent)
  {
    hide HighInOrder, PlainInOrder, NewestInOrder;
    KeyIsFound(s, m);
    EvictableIsSome(s);
    assert Waiting(s) == [] <==> |s.high| == 0 && |s.normal| == 0;
  }

  lemma KeyIsFound(s: Spec, m: Message)
    requires Shaped(s)
    ensures m.newestOnly && Find(s.normal, m) < |s.normal| <==> KeyWaits(s, m)
  {
    hide Shaped;
    var i := Find(s.normal, m);
    if i < |s.normal| && m.newestOnly {
      assert WaitsForKey(s, m, |s.high| + i);
    }
    if KeyWaits(s, m) {
      var k :| 0 <= k < |s.high| + |s.normal| && WaitsForKey(s, m, k);
      KeyIsNormal(s, m, k);
    }
  }

  lemma KeyIsNormal(s: Spec, m: Message, k: nat)
    requires Shaped(s) && k < |s.high| + |s.normal| && WaitsForKey(s, m, k)
    ensures k >= |s.high| && SameKey(s.normal[k - |s.high|], m)
  {
    HighIsFixed(s);
  }

  lemma HighIsFixed(s: Spec)
    requires Shaped(s)
    ensures forall k :: 0 <= k < |s.high| ==> !s.high[k].newestOnly
  {
    assert forall k :: 0 <= k < |s.high| ==> s.high[k] in s.high;
  }

  lemma EvictableIsSome(s: Spec)
    requires Shaped(s)
    ensures LastEvictable(s.normal) < |s.normal| <==> SomeReplaceable(s)
  {
    var e := LastEvictable(s.normal);
    if e < |s.normal| {
      assert (s.high + s.normal)[|s.high| + e].newestOnly;
    }
    HighIsFixed(s);
  }

  /**
   * Where a queued message goes: into the place of the one with its key; or behind those of its
   * priority, for which in a full queue the replaceable one nearest the back gives way, and only for a
   * high-priority one.
   */
  lemma QueuedIsExact(s: Spec, m: Message, hw: Hardware) returns (k: nat)
    requires Kept(s) && Sendable(m) && Submit(s, m, hw).0 == Queued
    ensures var t, full := Submit(s, m, hw).1, |s.high| + |s.normal| == 16;
            if KeyWaits(s, m) then
              && k < |s.normal| && WaitsForKey(s, m, |s.high| + k)
              && t.high == s.high && t.normal == s.normal[k := m]
              && t.evicted == s.evicted && t.enqueued == s.enqueued
            else
              && t.enqueued == s.enqueued + 1
              && (full ==> m.high && k < |s.normal| && t.evicted == s.evicted + 1
                           && t.high == s.high + [m] && GaveUpLast(s, t, k))
              && (!full ==> && t.evicted == s.evicted
                            && t.high == (if m.high then s.high + [m] else s.high)
                            && t.normal == if m.high then s.normal else s.normal + [m])
  {
    hide HighInOrder, PlainInOrder, NewestInOrder;
    KeyIsFound(s, m);
    k := if KeyWaits(s, m) then Find(s.normal, m) else LastEvictable(s.normal);
    if KeyWaits(s, m) {
      assert s.normal[k] in s.normal;
      assert s.normal[k].(data := m.data) == m;
    }
  }

  /** The first `n` that wait have been handed over, those of high priority first. */
  predicate Drained(s: Spec, t: Spec, n: nat)
    requires n <= |s.high| + |s.normal|
  {
    var h := if n < |s.high| then n else |s.high|;
    && t.sent == s.sent + s.high[..h] + s.normal[..n - h]
    && t.high == s.high[h..] && t.normal == s.normal[n - h..]
    && t.sentFromQueue == s.sentFromQueue + n && t.enqueued == s.enqueued && t.evicted == s.evicted
  }

  lemma {:induction false} DrainIsExact(s: Spec, n: nat)
    requires n <= |s.high| + |s.normal|
    ensures |Waiting(s)| == |s.high| + |s.normal|
    ensures Drained(s, SendHeads(s, n), n)
  {
    hide Drained, SendHead;
    if n == 0 {
      NoneDrained(s);
    } else {
      DrainIsExact(s, n - 1);
      OneMoreDrained(s, SendHeads(s, n - 1), n - 1);
    }
  }

  lemma NoneDrained(s: Spec)
    ensures Drained(s, s, 0)
  {
  }

  lemma OneMoreDrained(s: Spec, t: Spec, n: nat)
    requires n < |s.high| + |s.normal| && Drained(s, t, n)
    ensures Waiting(t) != [] && Drained(s, SendHead(t), n + 1)
  {
    hide Drained, SendHead;
    if n < |s.high| {
      OneMoreHigh(s, t, n);
    } else {
      OneMoreNormal(s, t, n);
    }
  }

  lemma OneMoreHigh(s: Spec, t: Spec, n: nat)
    requires n < |s.high| && Drained(s, t, n)
    ensures Waiting(t) != [] && Drained(s, SendHead(t), n + 1)
  {
    assert s.high[..n + 1] == s.high[..n] + [s.high[n]] && s.high[n..][1..] == s.high[n + 1..];
    assert Waiting(t)[0] == s.high[n];
    assert s.normal[..n - n] == [];
  }

  lemma OneMoreNormal(s: Spec, t: Spec, n: nat)
    requires |s.high| <= n < |s.high| + |s.normal| && Drained(s, t, n)
    ensures Waiting(t) != [] && Drained(s, SendHead(t), n + 1)
  {
    var j := n - |s.high|;
    assert s.normal[..j + 1] == s.normal[..j] + [s.normal[j]] && s.normal[j..][1..] == s.normal[j + 1..];
    assert t.high == [] && Waiting(t) == t.normal;
    assert Waiting(t)[0] == s.normal[j];
  }
}
