/**
 * Validation of the signal layout of one CAN message: ranges, multiplexing, and that the signals
 * cover the payload without overlap. Values already have their declared types.
 */
module DbcSignals {
  import opened Machine

  datatype Signal = Signal(name: string, startBit: int, length: int, signed: bool,
                           multiplexor: bool, muxValue: Option<int>, factor: real, offset: real,
                           minimum: Option<real>, maximum: Option<real>, source: Option<string>)

  /** The value tables, and the command codes when the message is the GUI command. */
  datatype Definition = Definition(tables: map<string, seq<int>>, commands: Option<set<int>>)

  datatype Fault =
    | InvalidName | DuplicateName | OutsideFrame | InvalidMuxValue | BothMuxRoles | MultipleMuxes
    | SignedMux | FactorNotPositive | RangeInverted | RangeNotRepresentable | Overlap
    | InvalidSource | ValueDoesNotFit

  datatype Verdict =
    | Accepted
    | BadSignal(index: nat, fault: Fault)
    | NoSignals | NoMultiplexor | MuxValueTooLarge | CommandsMismatch | GroupNotCovered
    | NoMuxGroups | FrameNotCovered

  function Pow2(n: nat): (p: nat)
    ensures p >= 1
  {
    if n == 0 then 1 else 2 * Pow2(n - 1)
  }

  predicate IsNameChar(c: char) {
    'A' <= c <= 'Z' || 'a' <= c <= 'z' || c == '_' || '0' <= c <= '9'
  }

  predicate IsName(name: string) {
    name != "" && !('0' <= name[0] <= '9') && forall i :: 0 <= i < |name| ==> IsNameChar(name[i])
  }

  /** The `count` integers from `start` on. */
  function Range(start: int, count: int): (range: set<int>)
    ensures forall b :: b in range <==> start <= b < start + count
    ensures |range| == if count > 0 then count else 0
    decreases count
  {
    if count <= 0 then {} else Range(start, count - 1) + {start + count - 1}
  }

  function Bits(s: Signal): set<int> {
    Range(s.startBit, s.length)
  }

  /** The two sets have an element in common. */
  predicate Meet(a: set<int>, b: set<int>) {
    exists x :: x in a && x in b
  }

  // ---------------------------------------------------------------- what is required

  /** Both are present in some frame. */
  predicate Together(a: Signal, b: Signal) {
    a.muxValue.None? || b.muxValue.None? || a.muxValue == b.muxValue
  }

  function RawMinimum(s: Signal): int
    requires s.length >= 1
  {
    if s.signed then 0 - Pow2(s.length - 1) else 0
  }

  function RawMaximum(s: Signal): int
    requires s.length >= 1
  {
    Pow2(if s.signed then s.length - 1 else s.length) - 1
  }

  function Physical(s: Signal, raw: int): real {
    raw as real * s.factor + s.offset
  }

  function Minimum(s: Signal): real
    requires s.length >= 1
  {
    if s.minimum.Some? then s.minimum.value else Physical(s, RawMinimum(s))
  }

  function Maximum(s: Signal): real
    requires s.length >= 1
  {
    if s.maximum.Some? then s.maximum.value else Physical(s, RawMaximum(s))
  }

  function RoleFault(s: Signal, anotherMux: bool): Option<Fault> {
    if s.muxValue.Some? && s.muxValue.value < 0 then Some(InvalidMuxValue)
    else if s.multiplexor && s.muxValue.Some? then Some(BothMuxRoles)
    else if s.multiplexor && anotherMux then Some(MultipleMuxes)
    else if s.multiplexor && s.signed then Some(SignedMux)
    else None
  }

  function RangeFault(s: Signal): Option<Fault>
    requires s.length >= 1
  {
    if s.factor <= 0.0 then Some(FactorNotPositive)
    else if Minimum(s) > Maximum(s) then Some(RangeInverted)
    else if Minimum(s) < Physical(s, RawMinimum(s)) || Maximum(s) > Physical(s, RawMaximum(s)) then
      Some(RangeNotRepresentable)
    else None
  }

  function SourceFault(s: Signal, tables: map<string, seq<int>>): Option<Fault>
    requires s.length >= 1
  {
    if s.source.None? then None
    else if s.source.value !in tables || tables[s.source.value] == [] then Some(InvalidSource)
    else if exists x :: x in tables[s.source.value] && !(RawMinimum(s) <= x <= RawMaximum(s)) then
      Some(ValueDoesNotFit)
    else None
  }

  /** The first thing wrong with a signal, given the ones before it. */
  function FaultOf(earlier: seq<Signal>, s: Signal, payloadBits: nat, tables: map<string, seq<int>>): Option<Fault> {
    if !IsName(s.name) then Some(InvalidName)
    else if exists e :: e in earlier && e.name == s.name then Some(DuplicateName)
    else if s.startBit < 0 || s.length < 1 || s.startBit + s.length > payloadBits then Some(OutsideFrame)
    else
      var role := RoleFault(s, exists e :: e in earlier && e.multiplexor);
      if role.Some? then role
      else
        var range := RangeFault(s);
        if range.Some? then range
        else if exists e :: e in earlier && Together(e, s) && Meet(Bits(e), Bits(s)) then Some(Overlap)
        else SourceFault(s, tables)
  }

  predicate Faultless(signals: seq<Signal>, payloadBits: nat, tables: map<string, seq<int>>) {
    forall i :: 0 <= i < |signals| ==> FaultOf(signals[..i], signals[i], payloadBits, tables) == None
  }

  function MuxValues(signals: seq<Signal>): set<int> {
    set s | s in signals && s.muxValue.Some? :: s.muxValue.value
  }

  /** Present in the frames of a multiplex group, or in every frame when there are no groups. */
  predicate Active(s: Signal, group: Option<int>) {
    s.muxValue.None? || s.muxValue == group
  }

  predicate Covered(signals: seq<Signal>, group: Option<int>, payloadBits: nat) {
    forall b :: 0 <= b < payloadBits ==> Owned(signals, group, b)
  }

  predicate Owned(signals: seq<Signal>, group: Option<int>, b: int) {
    exists s :: s in signals && Active(s, group) && b in Bits(s)
  }

  predicate MuxAccepted(signals: seq<Signal>, payloadBits: nat, commands: Option<set<int>>) {
    var groups := MuxValues(signals);
    if groups != {} then
      && (exists m :: m in signals && m.multiplexor && m.length >= 0
                      && forall v :: v in groups ==> v < Pow2(m.length))
      && (commands.Some? ==> groups == commands.value)
      && forall v :: v in groups ==> Covered(signals, Some(v), payloadBits)
    else
      && (forall m :: m in signals ==> !m.multiplexor)
      && Covered(signals, None, payloadBits)
  }

  /** A verdict on the whole message names a requirement that is not met. */
  predicate Justified(v: Verdict, signals: seq<Signal>, payloadBits: nat, commands: Option<set<int>>) {
    var groups := MuxValues(signals);
    match v
    case NoMultiplexor => groups != {} && forall m :: m in signals ==> !m.multiplexor
    case MuxValueTooLarge =>
      exists m :: m in signals && m.multiplexor && m.length >= 0 && exists g :: g in groups && g >= Pow2(m.length)
    case CommandsMismatch => groups != {} && commands.Some? && groups != commands.value
    case GroupNotCovered => exists g :: g in groups && !Covered(signals, Some(g), payloadBits)
    case NoMuxGroups => groups == {} && exists m :: m in signals && m.multiplexor
    case FrameNotCovered => groups == {} && !Covered(signals, None, payloadBits)
    case NoSignals => signals == []
    case _ => true
  }

  // ---------------------------------------------------------------- what it is required for

  /** What a faultless list says of one of its signals, alone and beside the ones before it. */
  lemma FaultlessAt(signals: seq<Signal>, payloadBits: nat, tables: map<string, seq<int>>, i: nat)
    requires Faultless(signals, payloadBits, tables) && i < |signals|
    ensures var s := signals[i];
            && 0 <= s.startBit && 1 <= s.length && s.startBit + s.length <= payloadBits
            && (s.muxValue.Some? ==> s.muxValue.value >= 0)
            && (s.multiplexor ==> s.muxValue == None && !s.signed)
    ensures forall j :: 0 <= j < i ==>
              && (Together(signals[j], signals[i]) ==> !Meet(Bits(signals[j]), Bits(signals[i])))
              && !(signals[j].multiplexor && signals[i].multiplexor)
  {
    hide Bits, Together, RangeFault, SourceFault;
    assert FaultOf(signals[..i], signals[i], payloadBits, tables) == None;
    forall j | 0 <= j < i
      ensures signals[j] in signals[..i]
    {
      assert signals[..i][j] == signals[j];
    }
  }

  /** No two signals of a faultless list that share a frame share a bit. */
  lemma NoSharedBit(signals: seq<Signal>, payloadBits: nat, tables: map<string, seq<int>>, i: nat, j: nat, b: int)
    requires Faultless(signals, payloadBits, tables) && i < |signals| && j < |signals|
    requires Together(signals[i], signals[j]) && b in Bits(signals[i]) && b in Bits(signals[j])
    ensures i == j
  {
    hide Bits, Faultless;
    FaultlessAt(signals, payloadBits, tables, i);
    FaultlessAt(signals, payloadBits, tables, j);
    assert Meet(Bits(signals[i]), Bits(signals[j])) && Meet(Bits(signals[j]), Bits(signals[i]));
  }

  lemma BitsInFrame(s: Signal, payloadBits: nat)
    requires 0 <= s.startBit && s.startBit + s.length <= payloadBits
    ensures Bits(s) <= Range(0, payloadBits)
  {
  }

  lemma GroupIsCovered(signals: seq<Signal>, payloadBits: nat, commands: Option<set<int>>, group: Option<int>)
    requires MuxAccepted(signals, payloadBits, commands)
    requires if MuxValues(signals) == {} then group == None else group.Some? && group.value in MuxValues(signals)
    ensures Covered(signals, group, payloadBits)
  {
    hide Bits, MuxValues, Covered;
    if group.Some? {
      var v: int := group.value;
      assert v in MuxValues(signals) && group == Some(v);
    } else {
      assert MuxValues(signals) == {};
    }
  }

  /**
   * In every frame of an accepted message, of each multiplex group or plain, each payload bit
   * belongs to exactly one signal, and no signal leaves the payload.
   */
  lemma EveryBitHasOneOwner(signals: seq<Signal>, payloadBits: nat, d: Definition, group: Option<int>, b: int)
    returns (owner: nat)
    requires Faultless(signals, payloadBits, d.tables) && MuxAccepted(signals, payloadBits, d.commands)
    requires if MuxValues(signals) == {} then group == None else group.Some? && group.value in MuxValues(signals)
    requires 0 <= b < payloadBits
    ensures owner < |signals| && Active(signals[owner], group) && b in Bits(signals[owner])
    ensures forall i :: 0 <= i < |signals| && Active(signals[i], group) && b in Bits(signals[i]) ==> i == owner
    ensures forall i :: 0 <= i < |signals| ==> Bits(signals[i]) <= Range(0, payloadBits)
  {
    hide Bits, Faultless;
    GroupIsCovered(signals, payloadBits, d.commands, group);
    assert Owned(signals, group, b);
    var s :| s in signals && Active(s, group) && b in Bits(s);
    owner :| 0 <= owner < |signals| && signals[owner] == s;
    forall i | 0 <= i < |signals| && Active(signals[i], group) && b in Bits(signals[i])
      ensures i == owner
    {
      NoSharedBit(signals, payloadBits, d.tables, i, owner, b);
    }
    forall i | 0 <= i < |signals|
      ensures Bits(signals[i]) <= Range(0, payloadBits)
    {
      FaultlessAt(signals, payloadBits, d.tables, i);
      BitsInFrame(signals[i], payloadBits);
    }
  }

  /** And every multiplex value fits the one multiplexor, which is present in every frame. */
  lemma MultiplexorSelects(signals: seq<Signal>, payloadBits: nat, d: Definition) returns (m: nat)
    requires Faultless(signals, payloadBits, d.tables) && MuxAccepted(signals, payloadBits, d.commands)
    requires MuxValues(signals) != {}
    ensures m < |signals| && signals[m].multiplexor && signals[m].muxValue == None && !signals[m].signed
    ensures forall i :: 0 <= i < |signals| && signals[i].multiplexor ==> i == m
    ensures signals[m].length >= 1 && forall v :: v in MuxValues(signals) ==> 0 <= v <= RawMaximum(signals[m])
  {
    hide Bits, Faultless, Covered, Together;
    var s :| s in signals && s.multiplexor && s.length >= 0
             && forall v :: v in MuxValues(signals) ==> v < Pow2(s.length);
    m :| 0 <= m < |signals| && signals[m] == s;
    FaultlessAt(signals, payloadBits, d.tables, m);
    forall i | 0 <= i < |signals|
      ensures signals[i].muxValue.Some? ==> signals[i].muxValue.value >= 0
      ensures signals[i].multiplexor ==> i == m
    {
      FaultlessAt(signals, payloadBits, d.tables, i);
    }
  }

  // ---------------------------------------------------------------- what exactly is accepted

  /** A signal of `n` bits has 2^n values: from 0 on, or as many below 0 as from 0 on. */
  lemma RawRange(s: Signal)
    requires s.length >= 1
    ensures RawMaximum(s) - RawMinimum(s) + 1 == Pow2(s.length)
    ensures RawMinimum(s) == if s.signed then 0 - RawMaximum(s) - 1 else 0
    ensures Pow2(0) == 1 && Pow2(s.length) == 2 * Pow2(s.length - 1)
  {
  }

  /** The declared limits, or where there are none the raw ones, scaled. */
  function Lowest(s: Signal): real
    requires s.length >= 1
  {
    match s.minimum
    case Some(x) => x
    case None => RawMinimum(s) as real * s.factor + s.offset
  }

  function Highest(s: Signal): real
    requires s.length >= 1
  {
    match s.maximum
    case Some(x) => x
    case None => RawMaximum(s) as real * s.factor + s.offset
  }

  /** Between its limits every physical value has a raw value that the bits can hold. */
  ghost predicate Representable(s: Signal)
    requires s.length >= 1 && s.factor > 0.0
  {
    forall x: real :: Lowest(s) <= x <= Highest(s) ==> Holds(s, x)
  }

  predicate Holds(s: Signal, x: real)
    requires s.length >= 1 && s.factor > 0.0
  {
    RawMinimum(s) as real <= (x - s.offset) / s.factor <= RawMaximum(s) as real
  }

  /** A range is in order exactly if scale and limits are, and all values between them are representable. */
  lemma RangeIsExact(s: Signal)
    requires s.length >= 1
    ensures RangeFault(s) == None <==> s.factor > 0.0 && Lowest(s) <= Highest(s) && Representable(s)
  {
    hide RawMinimum, RawMaximum, Physical, Holds, Lowest, Highest, Minimum, Maximum;
    LimitsAre(s);
    if s.factor > 0.0 && Lowest(s) <= Highest(s) {
      forall x: real
        ensures Holds(s, x) <==> Physical(s, RawMinimum(s)) <= x <= Physical(s, RawMaximum(s))
      {
        HoldsIs(s, x);
      }
      if Representable(s) {
        assert Holds(s, Lowest(s)) && Holds(s, Highest(s));
      }
    }
  }

  lemma LimitsAre(s: Signal)
    requires s.length >= 1
    ensures Minimum(s) == Lowest(s) && Maximum(s) == Highest(s)
  {
  }

  lemma HoldsIs(s: Signal, x: real)
    requires s.length >= 1 && s.factor > 0.0
    ensures Holds(s, x) <==> Physical(s, RawMinimum(s)) <= x <= Physical(s, RawMaximum(s))
  {
    hide RawMinimum, RawMaximum;
    Quotient(x - s.offset, s.factor, RawMinimum(s) as real);
    Quotient(x - s.offset, s.factor, RawMaximum(s) as real);
  }

  lemma Quotient(y: real, f: real, r: real)
    requires f > 0.0
    ensures y / f <= r <==> y <= r * f
    ensures r <= y / f <==> r * f <= y
  {
    var q := y / f;
    assert q * f == y;
    if q <= r {
      Scaled(q, r, f);
    }
    if r <= q {
      Scaled(r, q, f);
    }
    if q > r {
      ScaledLess(r, q, f);
    }
    if r > q {
      ScaledLess(q, r, f);
    }
  }

  lemma Scaled(a: real, b: real, f: real)
    requires a <= b && f > 0.0
    ensures a * f <= b * f
  {
  }

  lemma ScaledLess(a: real, b: real, f: real)
    requires a < b && f > 0.0
    ensures a * f < b * f
  {
  }

  /** A signal that is right by itself. */
  ghost predicate Right(s: Signal, payloadBits: nat, tables: map<string, seq<int>>) {
    && s.name != "" && (forall i :: 0 <= i < |s.name| ==> IsNameChar(s.name[i])) && !('0' <= s.name[0] <= '9')
    && 0 <= s.startBit && 1 <= s.length && s.startBit + s.length <= payloadBits
    && (s.muxValue.Some? ==> s.muxValue.value >= 0)
    && (s.multiplexor ==> s.muxValue == None && !s.signed)
    && s.factor > 0.0 && Lowest(s) <= Highest(s) && Representable(s)
    && (s.source.Some? ==>
          && s.source.value in tables && tables[s.source.value] != []
          && forall x :: x in tables[s.source.value] ==> RawMinimum(s) <= x <= RawMaximum(s))
  }

  /** Two signals that may stand in one message. */
  predicate Compatible(a: Signal, b: Signal) {
    && a.name != b.name && !(a.multiplexor && b.multiplexor)
    && ((a.muxValue == None || b.muxValue == None || a.muxValue == b.muxValue) ==>
          a.startBit + a.length <= b.startBit || b.startBit + b.length <= a.startBit)
  }

  /** A list is faultless exactly if every signal is right and every two are compatible, in whatever order. */
  lemma FaultlessIsExact(signals: seq<Signal>, payloadBits: nat, tables: map<string, seq<int>>)
    ensures Faultless(signals, payloadBits, tables)
            <==> (forall i :: 0 <= i < |signals| ==> Right(signals[i], payloadBits, tables))
                 && (forall i, j :: 0 <= i < j < |signals| ==> Compatible(signals[i], signals[j]))
  {
    hide FaultOf, Right, Compatible;
    if Faultless(signals, payloadBits, tables) {
      forall i | 0 <= i < |signals|
        ensures signals[i].length >= 1
      {
        FaultlessAt(signals, payloadBits, tables, i);
      }
      EachIsExact(signals, payloadBits, tables);
    } else if forall i :: 0 <= i < |signals| ==> Right(signals[i], payloadBits, tables) {
      forall i | 0 <= i < |signals|
        ensures signals[i].length >= 1
      {
        RightHasBits(signals[i], payloadBits, tables);
      }
      EachIsExact(signals, payloadBits, tables);
    }
  }

  lemma RightHasBits(s: Signal, payloadBits: nat, tables: map<string, seq<int>>)
    requires Right(s, payloadBits, tables)
    ensures s.length >= 1
  {
  }

  lemma EachIsExact(signals: seq<Signal>, payloadBits: nat, tables: map<string, seq<int>>)
    requires forall i :: 0 <= i < |signals| ==> signals[i].length >= 1
    ensures forall j :: 0 <= j < |signals| ==>
              (FaultOf(signals[..j], signals[j], payloadBits, tables) == None
               <==> Right(signals[j], payloadBits, tables)
                    && forall i :: 0 <= i < j ==> Compatible(signals[i], signals[j]))
  {
    hide FaultOf, Right, Compatible;
    forall j | 0 <= j < |signals|
      ensures FaultOf(signals[..j], signals[j], payloadBits, tables) == None
              <==> Right(signals[j], payloadBits, tables)
                   && forall i :: 0 <= i < j ==> Compatible(signals[i], signals[j])
    {
      FaultIsExact(signals[..j], signals[j], payloadBits, tables);
      assert forall i :: 0 <= i < j ==> signals[..j][i] == signals[i];
    }
  }

  lemma FaultIsExact(earlier: seq<Signal>, s: Signal, payloadBits: nat, tables: map<string, seq<int>>)
    requires forall i :: 0 <= i < |earlier| ==> earlier[i].length >= 1
    ensures FaultOf(earlier, s, payloadBits, tables) == None
            <==> Right(s, payloadBits, tables) && forall i :: 0 <= i < |earlier| ==> Compatible(earlier[i], s)
  {
    hide Bits, RangeFault, Representable, RawMinimum, RawMaximum, IsNameChar, Meet;
    if s.length >= 1 {
      RangeIsExact(s);
    }
    forall i | 0 <= i < |earlier|
      ensures earlier[i] in earlier
      ensures s.length >= 1 ==>
                (Meet(Bits(earlier[i]), Bits(s))
                 <==> !(earlier[i].startBit + earlier[i].length <= s.startBit
                        || s.startBit + s.length <= earlier[i].startBit))
    {
      if s.length >= 1 {
        MeetIsOverlap(earlier[i], s);
      }
    }
  }

  lemma MeetIsOverlap(a: Signal, b: Signal)
    requires a.length >= 1 && b.length >= 1
    ensures Meet(Bits(a), Bits(b))
            <==> !(a.startBit + a.length <= b.startBit || b.startBit + b.length <= a.startBit)
  {
    if !(a.startBit + a.length <= b.startBit || b.startBit + b.length <= a.startBit) {
      var x := if a.startBit < b.startBit then b.startBit else a.startBit;
      assert x in Bits(a) && x in Bits(b);
    }
  }

  /** With groups the message for commands has exactly one for each command; without, no multiplexor. */
  lemma GroupsAreCommands(signals: seq<Signal>, payloadBits: nat, commands: set<int>)
    requires MuxAccepted(signals, payloadBits, Some(commands))
    ensures if exists s :: s in signals && s.muxValue.Some? then
              forall v :: v in commands <==> exists s :: s in signals && s.muxValue == Some(v)
            else forall s :: s in signals ==> !s.multiplexor
  {
    hide Covered;
    if s :| s in signals && s.muxValue.Some? {
      assert s.muxValue.value in MuxValues(signals);
    }
  }

  /** The fault named is one that the signal has. */
  lemma FaultIsReal(earlier: seq<Signal>, s: Signal, payloadBits: nat, tables: map<string, seq<int>>)
    requires FaultOf(earlier, s, payloadBits, tables).Some?
    ensures var fault, inFrame := FaultOf(earlier, s, payloadBits, tables).value,
                                  0 <= s.startBit && 1 <= s.length && s.startBit + s.length <= payloadBits;
            match fault
            case InvalidName =>
              s.name == "" || '0' <= s.name[0] <= '9' || exists i :: 0 <= i < |s.name| && !IsNameChar(s.name[i])
            case DuplicateName => exists e :: e in earlier && e.name == s.name
            case OutsideFrame => !inFrame
            case InvalidMuxValue => s.muxValue.Some? && s.muxValue.value < 0
            case BothMuxRoles => s.multiplexor && s.muxValue.Some?
            case MultipleMuxes => s.multiplexor && exists e :: e in earlier && e.multiplexor
            case SignedMux => s.multiplexor && s.signed
            case FactorNotPositive => s.factor <= 0.0
            case RangeInverted => inFrame && Lowest(s) > Highest(s)
            case RangeNotRepresentable => inFrame && s.factor > 0.0 && !Representable(s)
            case Overlap =>
              exists e :: e in earlier && Meet(Bits(e), Bits(s))
                          && (e.muxValue == None || s.muxValue == None || e.muxValue == s.muxValue)
            case InvalidSource => s.source.Some? && (s.source.value !in tables || tables[s.source.value] == [])
            case ValueDoesNotFit =>
              inFrame && s.source.Some? && s.source.value in tables
              && exists x :: x in tables[s.source.value] && (x < RawMinimum(s) || x > RawMaximum(s))
  {
    hide Bits, Representable, RawMinimum, RawMaximum, IsNameChar, Meet, Physical, Lowest, Highest, Minimum, Maximum;
    if s.length >= 1 {
      RangeIsExact(s);
      LimitsAre(s);
    }
  }

  // ---------------------------------------------------------------- the procedure

  /** The bits of the signals that carry this multiplex value, or none. */
  function GroupBits(signals: seq<Signal>, value: Option<int>): set<int> {
    set s, b | s in signals && s.muxValue == value && b in Bits(s) :: b
  }

  /** What the procedure has gathered from the signals so far. */
  ghost predicate Gathered(signals: seq<Signal>, names: set<string>, mux: Option<Signal>,
                           common: set<int>, groups: map<int, set<int>>)
  {
    && (forall n :: n in names <==> exists e :: e in signals && e.name == n)
    && (mux.None? ==> forall e :: e in signals ==> !e.multiplexor)
    && (mux.Some? ==> mux.value in signals && mux.value.multiplexor)
    && common == GroupBits(signals, None)
    && groups.Keys == MuxValues(signals)
    && forall v :: v in groups ==> groups[v] == GroupBits(signals, Some(v))
  }

  lemma GatheredGrows(signals: seq<Signal>, s: Signal, names: set<string>, mux: Option<Signal>,
                      common: set<int>, groups: map<int, set<int>>)
    requires Gathered(signals, names, mux, common, groups)
    ensures Gathered(signals + [s], names + {s.name}, if s.multiplexor then Some(s) else mux,
                     if s.muxValue.None? then common + Bits(s) else common,
                     if s.muxValue.None? then groups
                     else groups[s.muxValue.value := (if s.muxValue.value in groups then groups[s.muxValue.value]
                                                      else {}) + Bits(s)])
  {
    hide Bits;
    var more := signals + [s];
    assert forall e :: e in more <==> e in signals || e == s;
    forall value: Option<int>
      ensures GroupBits(more, value) == GroupBits(signals, value) + if s.muxValue == value then Bits(s) else {}
    {
      GroupBitsGrow(signals, s, value);
    }
    MuxValuesGrow(signals, s);
    if s.muxValue.Some? && s.muxValue.value !in groups {
      NoGroupNoBits(signals, s.muxValue.value);
    }
    hide GroupBits, MuxValues;
  }

  lemma GroupBitsGrow(signals: seq<Signal>, s: Signal, value: Option<int>)
    ensures GroupBits(signals + [s], value)
         == GroupBits(signals, value) + if s.muxValue == value then Bits(s) else {}
  {
    hide Bits;
    var more := signals + [s];
    assert forall e :: e in more <==> e in signals || e == s;
    forall b
      ensures b in GroupBits(more, value) <==> b in GroupBits(signals, value) || (s.muxValue == value && b in Bits(s))
    {
      if e :| e in more && e.muxValue == value && b in Bits(e) {
      }
    }
  }

  lemma MuxValuesGrow(signals: seq<Signal>, s: Signal)
    ensures MuxValues(signals + [s]) == MuxValues(signals) + if s.muxValue.Some? then {s.muxValue.value} else {}
  {
    assert s in signals + [s];
  }

  lemma NoGroupNoBits(signals: seq<Signal>, value: int)
    requires value !in MuxValues(signals)
    ensures GroupBits(signals, Some(value)) == {}
  {
  }

  /** The set operations find an overlap exactly if some earlier signal of a shared frame has one. */
  lemma OverlapIsFound(signals: seq<Signal>, s: Signal, names: set<string>, mux: Option<Signal>,
                       common: set<int>, groups: map<int, set<int>>)
    requires Gathered(signals, names, mux, common, groups)
    ensures OverlapsGathered(s, common, groups)
            <==> exists e :: e in signals && Together(e, s) && Meet(Bits(e), Bits(s))
  {
    hide Bits;
    GroupOverlap(signals, s, None);
    forall v | v in groups
      ensures Meet(Bits(s), groups[v]) <==> OverlapIn(signals, s, Some(v))
    {
      GroupOverlap(signals, s, Some(v));
    }
    if e :| e in signals && Together(e, s) && Meet(Bits(e), Bits(s)) {
      assert OverlapIn(signals, s, e.muxValue);
      if e.muxValue.Some? {
        var v := e.muxValue.value;
        assert v in MuxValues(signals) && OverlapIn(signals, s, Some(v)) && Meet(Bits(s), groups[v]);
      }
    }
    if OverlapsGathered(s, common, groups) {
      var value := None;
      if !Meet(Bits(s), common) {
        value := s.muxValue;
        if s.muxValue.None? {
          var v :| v in groups && Meet(Bits(s), groups[v]);
          value := Some(v);
        }
      }
      var e :| e in signals && e.muxValue == value && Meet(Bits(e), Bits(s));
      assert Together(e, s);
    }
  }

  ghost predicate OverlapIn(signals: seq<Signal>, s: Signal, value: Option<int>) {
    exists e :: e in signals && e.muxValue == value && Meet(Bits(e), Bits(s))
  }

  lemma GroupOverlap(signals: seq<Signal>, s: Signal, value: Option<int>)
    ensures Meet(Bits(s), GroupBits(signals, value)) <==> OverlapIn(signals, s, value)
  {
    hide Bits;
    if Meet(Bits(s), GroupBits(signals, value)) {
      var b :| b in Bits(s) && b in GroupBits(signals, value);
      var e :| e in signals && e.muxValue == value && b in Bits(e);
      assert Meet(Bits(e), Bits(s));
    }
    if e :| e in signals && e.muxValue == value && Meet(Bits(e), Bits(s)) {
      var b :| b in Bits(e) && b in Bits(s);
      assert b in GroupBits(signals, value);
    }
  }

  predicate OverlapsGathered(s: Signal, common: set<int>, groups: map<int, set<int>>) {
    || Meet(Bits(s), common)
    || (if s.muxValue.None? then exists v :: v in groups && Meet(Bits(s), groups[v])
        else s.muxValue.value in groups && Meet(Bits(s), groups[s.muxValue.value]))
  }

  /** Counting the bits of a group against the payload decides whether it covers the frame. */
  lemma CountDecidesCoverage(signals: seq<Signal>, group: Option<int>, payloadBits: nat, tables: map<string, seq<int>>)
    requires Faultless(signals, payloadBits, tables)
    ensures var bits := GroupBits(signals, None) + GroupBits(signals, group);
            |bits| == payloadBits <==> Covered(signals, group, payloadBits)
  {
    hide Bits, Faultless, GroupBits;
    var bits := GroupBits(signals, None) + GroupBits(signals, group);
    var frame := Range(0, payloadBits);
    BitsOfGroup(signals, group);
    forall s | s in signals
      ensures Bits(s) <= frame
    {
      var i :| 0 <= i < |signals| && signals[i] == s;
      FaultlessAt(signals, payloadBits, tables, i);
      BitsInFrame(s, payloadBits);
    }
    SubsetOfSameSize(bits, frame);
  }

  lemma BitsOfGroup(signals: seq<Signal>, group: Option<int>)
    ensures forall b :: b in GroupBits(signals, None) + GroupBits(signals, group)
                        <==> Owned(signals, group, b)
  {
    hide Bits;
  }

  lemma SubsetOfSameSize(a: set<int>, b: set<int>)
    requires a <= b
    ensures |a| <= |b| && (|a| == |b| <==> a == b)
  {
    assert b == a + (b - a);
    assert |b| == |a| + |b - a|;
  }

  /** validate_signals, for a message whose signal list is present. */
  method ValidateSignals(signals: seq<Signal>, payloadBits: nat, d: Definition) returns (v: Verdict)
    ensures v.Accepted? <==>
              signals != [] && Faultless(signals, payloadBits, d.tables)
              && MuxAccepted(signals, payloadBits, d.commands)
    ensures v.BadSignal? ==>
              && v.index < |signals| && Faultless(signals[..v.index], payloadBits, d.tables)
              && FaultOf(signals[..v.index], signals[v.index], payloadBits, d.tables) == Some(v.fault)
    ensures !v.Accepted? && !v.BadSignal? ==> signals == [] || Faultless(signals, payloadBits, d.tables)
    ensures Justified(v, signals, payloadBits, d.commands)
  {
    hide FaultOf, Gathered, MuxAccepted, Bits;
    if signals == [] {
      return NoSignals;
    }
    GatheredNothing();
    var names: set<string>, mux: Option<Signal> := {}, None;
    var common: set<int>, groups: map<int, set<int>> := {}, map[];
    for i := 0 to |signals|
      invariant Faultless(signals[..i], payloadBits, d.tables)
      invariant Gathered(signals[..i], names, mux, common, groups)
    {
      var s := signals[i];
      var fault := CheckSignal(signals[..i], s, payloadBits, d.tables, names, mux, common, groups);
      if fault.Some? {
        return BadSignal(i, fault.value);
      }
      GatheredGrows(signals[..i], s, names, mux, common, groups);
      FaultlessGrows(signals, i, payloadBits, d.tables);
      assert signals[..i + 1] == signals[..i] + [s];
      names := names + {s.name};
      if s.multiplexor {
        mux := Some(s);
      }
      if s.muxValue.None? {
        common := common + Bits(s);
      } else {
        groups := groups[s.muxValue.value := (if s.muxValue.value in groups then groups[s.muxValue.value] else {})
                                             + Bits(s)];
      }
    }
    assert signals[..|signals|] == signals;
    v := CheckMultiplexing(signals, payloadBits, d, names, mux, common, groups);
  }

  lemma GatheredNothing()
    ensures Gathered([], {}, None, {}, map[])
  {
  }

  lemma FaultlessGrows(signals: seq<Signal>, i: nat, payloadBits: nat, tables: map<string, seq<int>>)
    requires i < |signals| && Faultless(signals[..i], payloadBits, tables)
    requires FaultOf(signals[..i], signals[i], payloadBits, tables) == None
    ensures Faultless(signals[..i + 1], payloadBits, tables)
  {
    hide FaultOf;
    assert forall j :: 0 <= j <= i ==> signals[..i + 1][..j] == signals[..j];
    assert forall j :: 0 <= j <= i ==> signals[..i][..j] == signals[..j];
  }

  method CheckSignal(ghost earlier: seq<Signal>, s: Signal, payloadBits: nat, tables: map<string, seq<int>>,
                     names: set<string>, mux: Option<Signal>, common: set<int>, groups: map<int, set<int>>)
    returns (fault: Option<Fault>)
    requires Gathered(earlier, names, mux, common, groups)
    ensures fault == FaultOf(earlier, s, payloadBits, tables)
  {
    hide Gathered, RangeFault, RoleFault, SourceFault, Bits, OverlapsGathered, Together, IsName;
    GatheredSays(earlier, names, mux, common, groups);
    if !IsName(s.name) {
      return Some(InvalidName);
    }
    if s.name in names {
      return Some(DuplicateName);
    }
    if s.startBit < 0 || s.length < 1 || s.startBit + s.length > payloadBits {
      return Some(OutsideFrame);
    }
    fault := RoleFault(s, mux.Some?);
    if fault.Some? {
      return;
    }
    fault := RangeFault(s);
    if fault.Some? {
      return;
    }
    OverlapIsFound(earlier, s, names, mux, common, groups);
    if OverlapsGathered(s, common, groups) {
      return Some(Overlap);
    }
    fault := CheckSource(s, tables);
  }

  method CheckSource(s: Signal, tables: map<string, seq<int>>) returns (fault: Option<Fault>)
    requires s.length >= 1
    ensures fault == SourceFault(s, tables)
  {
    if s.source.Some? {
      if s.source.value !in tables || tables[s.source.value] == [] {
        return Some(InvalidSource);
      }
      var values := tables[s.source.value];
      for k := 0 to |values|
        invariant forall i :: 0 <= i < k ==> RawMinimum(s) <= values[i] <= RawMaximum(s)
      {
        if !(RawMinimum(s) <= values[k] <= RawMaximum(s)) {
          assert values[k] in values;
          return Some(ValueDoesNotFit);
        }
      }
    }
    return None;
  }

  lemma GatheredSays(signals: seq<Signal>, names: set<string>, mux: Option<Signal>,
                     common: set<int>, groups: map<int, set<int>>)
    requires Gathered(signals, names, mux, common, groups)
    ensures forall n :: n in names <==> exists e :: e in signals && e.name == n
    ensures mux.Some? <==> exists e :: e in signals && e.multiplexor
  {
  }

  method CheckMultiplexing(signals: seq<Signal>, payloadBits: nat, d: Definition, ghost names: set<string>,
                           mux: Option<Signal>, common: set<int>, groups: map<int, set<int>>)
    returns (v: Verdict)
    requires Gathered(signals, names, mux, common, groups)
    requires Faultless(signals, payloadBits, d.tables)
    ensures v.Accepted? <==> MuxAccepted(signals, payloadBits, d.commands)
    ensures !v.BadSignal? && !v.NoSignals? && Justified(v, signals, payloadBits, d.commands)
  {
    hide Bits, Faultless, Covered, GroupBits;
    OnlyOneMux(signals, payloadBits, d.tables);
    if groups != map[] {
      if mux.None? {
        return NoMultiplexor;
      }
      if exists value :: value in groups && value > Pow2(mux.value.length) - 1 {
        return MuxValueTooLarge;
      }
      if d.commands.Some? && groups.Keys != d.commands.value {
        return CommandsMismatch;
      }
      var covered := CheckGroups(signals, payloadBits, d.tables, common, groups);
      if !covered {
        return GroupNotCovered;
      }
    } else {
      CountDecidesCoverage(signals, None, payloadBits, d.tables);
      assert common + GroupBits(signals, None) == common;
      if mux.Some? {
        return NoMuxGroups;
      }
      if |common| != payloadBits {
        return FrameNotCovered;
      }
    }
    return Accepted;
  }

  /** The loop over the groups. */
  method CheckGroups(signals: seq<Signal>, payloadBits: nat, ghost tables: map<string, seq<int>>,
                     common: set<int>, groups: map<int, set<int>>)
    returns (covered: bool)
    requires Faultless(signals, payloadBits, tables) && common == GroupBits(signals, None)
    requires forall v :: v in groups ==> groups[v] == GroupBits(signals, Some(v))
    ensures covered <==> forall v :: v in groups ==> Covered(signals, Some(v), payloadBits)
  {
    hide Bits, Faultless, Covered, GroupBits;
    var rest := groups.Keys;
    while rest != {}
      invariant rest <= groups.Keys
      invariant forall value :: value in groups.Keys - rest ==> Covered(signals, Some(value), payloadBits)
      decreases |rest|
    {
      Inhabited(rest);
      var value :| value in rest;
      CountDecidesCoverage(signals, Some(value), payloadBits, tables);
      if |common + groups[value]| != payloadBits {
        return false;
      }
      rest := rest - {value};
    }
    covered := true;
  }

  lemma Inhabited(s: set<int>)
    ensures s == {} || exists x :: x in s
  {
    if forall x :: x !in s {
      // no element: the empty set
    }
  }

  lemma OnlyOneMux(signals: seq<Signal>, payloadBits: nat, tables: map<string, seq<int>>)
    requires Faultless(signals, payloadBits, tables)
    ensures forall m, n :: m in signals && n in signals && m.multiplexor && n.multiplexor ==> m == n
    ensures forall m :: m in signals ==> m.length >= 1
  {
    hide Bits, Faultless, Together;
    forall i | 0 <= i < |signals|
      ensures signals[i].length >= 1
      ensures forall j :: 0 <= j < i ==> !(signals[j].multiplexor && signals[i].multiplexor)
    {
      FaultlessAt(signals, payloadBits, tables, i);
    }
  }
}
