/** Card selection in the telephony driver (src/wcfxs.c, src/fx.c): one SPI mux
    shared by eight cards and the LED latches, and a cached current card. */
module CardSelect {

  datatype ModType = FXS | FXO

  /** What crosses the SPI bus.  A register byte carries the card it is meant
      for, a LED byte the board; Read is the reply byte. */
  datatype Event = Select(code: int) | RegByte(card: nat, byte: int) | Read(card: nat) | LedByte(board: nat, leds: bv8)

  const NUM_CARDS := 8
  const NOTHING := -1

  /** The mux code that selects a card, and the one that selects a board's LEDs. */
  function CardCode(card: nat): int { if card < 4 then card + 1 else 0x40 + (card - 4) + 1 }
  function LedCode(board: nat): int { if board == 1 then 0x45 else 0x05 }

  /** What the mux connects for a code: each board of four has lines 1 to 4 for its
      cards and line 5 for its LED latch. */
  datatype Target = Card(card: int) | Leds(board: int) | Nobody

  function Decoded(code: int): Target {
    var board, line := code / 0x40, code % 0x40;
    if (board == 0 || board == 1) && 1 <= line <= 4 then Card(4 * board + line - 1)
    else if (board == 0 || board == 1) && line == 5 then Leds(board)
    else Nobody
  }

  lemma CodesReach(card: nat, board: nat)
    requires card < NUM_CARDS && board < 2
    ensures Decoded(CardCode(card)) == Card(card) && Decoded(LedCode(board)) == Leds(board)
  {
  }

  lemma CodesDistinct(c: nat, d: nat, board: nat)
    requires c < NUM_CARDS && d < NUM_CARDS && board < 2
    ensures CardCode(c) == CardCode(d) <==> c == d
    ensures CardCode(c) != LedCode(board) && LedCode(0) != LedCode(1)
  {
  }

  /** What the hardware mux selects after the bus traffic. */
  function Selected(bus: seq<Event>): int {
    if bus == [] then NOTHING
    else if bus[|bus| - 1].Select? then bus[|bus| - 1].code
    else Selected(bus[..|bus| - 1])
  }

  /** The addressee of the event is what the mux selects. */
  predicate Addressed(selected: int, e: Event) {
    match e
    case Select(_) => true
    case RegByte(card, _) => Decoded(selected) == Card(card)
    case Read(card) => Decoded(selected) == Card(card)
    case LedByte(board, _) => Decoded(selected) == Leds(board)
  }

  /** Every byte was sent while the hardware selected its addressee. */
  ghost predicate Safe(bus: seq<Event>) {
    forall i | 0 <= i < |bus| :: SafeAt(bus, i)
  }

  ghost predicate SafeAt(bus: seq<Event>, i: int)
    requires 0 <= i < |bus|
  {
    Addressed(Selected(bus[..i]), bus[i])
  }

  lemma SafeExtend(bus: seq<Event>, e: Event)
    requires Safe(bus) && Addressed(Selected(bus), e)
    ensures Safe(bus + [e]) && Selected(bus + [e]) == if e.Select? then e.code else Selected(bus)
  {
    var t := bus + [e];
    assert t[..|t| - 1] == bus;
    forall i | 0 <= i < |t| ensures SafeAt(t, i) {
      if i < |bus| { assert SafeAt(bus, i) && t[..i] == bus[..i]; }
    }
  }

  // ---------- LED shadow ----------

  /** The two bits of a port (1 to 4) in its board's byte. */
  function PortBits(b: bv8, port: nat): bv8
    requires 1 <= port <= 4
  {
    if port == 1 then b & 3 else if port == 2 then (b >> 2) & 3 else if port == 3 then (b >> 4) & 3 else (b >> 6) & 3
  }

  /** The port's two bits cleared, then set to the state. */
  function SetPort(b: bv8, port: nat, state: bv8): bv8
    requires 1 <= port <= 4
  {
    if port == 1 then (b & !3) | state
    else if port == 2 then (b & !(3 << 2)) | (state << 2)
    else if port == 3 then (b & !(3 << 4)) | (state << 4)
    else (b & !(3 << 6)) | (state << 6)
  }

  /** Only the addressed port's bits change, to the new state. */
  lemma SetPortExact(b: bv8, port: nat, state: bv8, q: nat)
    requires 1 <= port <= 4 && 1 <= q <= 4 && state <= 3
    ensures PortBits(SetPort(b, port, state), q) == if q == port then state else PortBits(b, q)
  {
  }

  /** A byte is its four ports side by side, two bits each, port 1 lowest. */
  lemma ByteOfPorts(b: bv8)
    ensures b == (PortBits(b, 4) << 6) | (PortBits(b, 3) << 4) | (PortBits(b, 2) << 2) | PortBits(b, 1)
    ensures PortBits(b, 1) <= 3 && PortBits(b, 2) <= 3 && PortBits(b, 3) <= 3 && PortBits(b, 4) <= 3
  {
  }

  function Board(port: nat): nat { if port > 4 then 1 else 0 }
  function LocalPort(port: nat): nat { if port > 4 then port - 4 else port }

  /** The eight ports are the four of each board in turn, each with the card that
      has the same place there. */
  lemma PortPlaces(board: nat, local: nat)
    requires board < 2 && 1 <= local <= 4
    ensures var port := 4 * board + local;
      Board(port) == board && LocalPort(port) == local && Decoded(CardCode(port - 1)) == Card(4 * board + local - 1)
  {
  }

  /** The state that the shadow holds for one of the eight ports. */
  function Colour(led: seq<bv8>, port: nat): bv8
    requires |led| >= 2 && 1 <= port <= 8
  {
    PortBits(led[Board(port)], LocalPort(port))
  }

  // ---------- The driver ----------

  /** The mux is written only when the cache names another card. */
  function Selection(curcard: int, card: nat): seq<Event> {
    if curcard == card then [] else [Select(CardCode(card))]
  }

  function RegBytes(card: nat, bytes: seq<int>): (es: seq<Event>)
    ensures |es| == |bytes| && forall i | 0 <= i < |bytes| :: es[i] == RegByte(card, bytes[i])
  {
    seq(|bytes|, i requires 0 <= i < |bytes| => RegByte(card, bytes[i]))
  }

  /** The bytes of a register write and of a register read. */
  function WriteBytes(m: ModType, reg: nat, value: nat): seq<int> {
    if m == FXO then [0x20, reg % 0x80, value] else [reg % 0x80, value]
  }

  function ReadBytes(m: ModType, reg: nat): seq<int> {
    if m == FXO then [0x60, reg % 0x80] else [reg % 0x80 + 0x80]
  }

  /** What a module makes of its bytes: an FXO module takes 0x20 or 0x60 to write
      or read and then the register, an FXS module takes the register with the
      high bit set to read; a value to write comes last. */
  datatype Access = WriteTo(reg: int, value: int) | ReadFrom(reg: int) | Malformed

  function Understood(m: ModType, bytes: seq<int>): Access {
    var rest := if m == FXO && bytes != [] then bytes[1..] else bytes;
    var read := bytes != [] && if m == FXO then bytes[0] == 0x60 else bytes[0] >= 0x80;
    if m == FXO && (bytes == [] || (bytes[0] != 0x20 && bytes[0] != 0x60)) then Malformed
    else if read && |rest| == 1 then ReadFrom(rest[0] % 0x80)
    else if !read && |rest| == 2 then WriteTo(rest[0], rest[1])
    else Malformed
  }

  lemma BytesUnderstood(m: ModType, reg: nat, value: nat)
    requires reg < 256
    ensures Understood(m, WriteBytes(m, reg, value)) == WriteTo(reg % 0x80, value)
    ensures Understood(m, ReadBytes(m, reg)) == ReadFrom(reg % 0x80)
  {
  }

  /** The shadow after one port was set. */
  function SetColour(led: seq<bv8>, port: nat, colour: bv8): seq<bv8>
    requires |led| >= 2 && 1 <= port <= 8
  {
    led[Board(port) := SetPort(led[Board(port)], LocalPort(port), colour)]
  }

  lemma SetColourExact(led: seq<bv8>, port: nat, colour: bv8, q: nat)
    requires |led| >= 2 && 1 <= port <= 8 && 1 <= q <= 8 && colour <= 3
    ensures Colour(SetColour(led, port, colour), q) == if q == port then colour else Colour(led, q)
  {
    SetPortExact(led[Board(port)], LocalPort(port), colour, LocalPort(q));
  }

  // ---------- What a run of operations sends ----------

  datatype Op = DoSetReg(card: nat, reg: nat, value: nat) | DoGetReg(card: nat, reg: nat) | DoSetLed(port: nat, colour: bv8) {
    predicate Proper() {
      match this
      case DoSetReg(c, r, v) => c < NUM_CARDS && r < 256 && v < 256
      case DoGetReg(c, r) => c < NUM_CARDS && r < 256
      case DoSetLed(p, k) => 1 <= p <= 8 && k <= 3
    }
  }

  predicate AllProper(ops: seq<Op>) { forall i | 0 <= i < |ops| :: ops[i].Proper() }

  function CardAfter(curcard: int, ops: seq<Op>): int {
    if ops == [] then curcard
    else
      match ops[|ops| - 1]
      case DoSetReg(card, _, _) => card
      case DoGetReg(card, _) => card
      case DoSetLed(_, _) => NOTHING
  }

  function LedAfter(led: seq<bv8>, ops: seq<Op>): (led': seq<bv8>)
    requires |led| >= 2 && AllProper(ops)
    ensures |led'| == |led|
  {
    if ops == [] then led
    else
      var n := |ops| - 1;
      var was := LedAfter(led, ops[..n]);
      if ops[n].DoSetLed? then SetColour(was, ops[n].port, ops[n].colour) else was
  }

  /** What the devices are to receive for one operation, with the mux left out. */
  function Data(modtype: seq<ModType>, led: seq<bv8>, op: Op): seq<Event>
    requires |modtype| == NUM_CARDS && |led| >= 2 && op.Proper()
  {
    match op
    case DoSetReg(card, reg, value) => RegBytes(card, WriteBytes(modtype[card], reg, value))
    case DoGetReg(card, reg) => RegBytes(card, ReadBytes(modtype[card], reg)) + [Read(card)]
    case DoSetLed(port, colour) => [LedByte(Board(port), SetColour(led, port, colour)[Board(port)])]
  }

  /** The mux write before it, if there is one. */
  function Routing(curcard: int, op: Op): seq<Event> {
    match op
    case DoSetReg(card, _, _) => Selection(curcard, card)
    case DoGetReg(card, _) => Selection(curcard, card)
    case DoSetLed(port, _) => [Select(LedCode(Board(port)))]
  }

  function Sent(curcard: int, modtype: seq<ModType>, led: seq<bv8>, op: Op): seq<Event>
    requires |modtype| == NUM_CARDS && |led| >= 2 && op.Proper()
  {
    Routing(curcard, op) + Data(modtype, led, op)
  }

  lemma Regroup<T>(a: seq<T>, b: seq<T>, c: seq<T>)
    ensures a + b + c == a + (b + c)
  {
  }

  function Trace(curcard: int, modtype: seq<ModType>, led: seq<bv8>, ops: seq<Op>): seq<Event>
    requires |modtype| == NUM_CARDS && |led| >= 2 && AllProper(ops)
  {
    if ops == [] then []
    else
      var n := |ops| - 1;
      Trace(curcard, modtype, led, ops[..n]) + Sent(CardAfter(curcard, ops[..n]), modtype, LedAfter(led, ops[..n]), ops[n])
  }

  /** All requested data, in order. */
  function Requested(modtype: seq<ModType>, led: seq<bv8>, ops: seq<Op>): seq<Event>
    requires |modtype| == NUM_CARDS && |led| >= 2 && AllProper(ops)
  {
    if ops == [] then []
    else
      var n := |ops| - 1;
      Requested(modtype, led, ops[..n]) + Data(modtype, LedAfter(led, ops[..n]), ops[n])
  }

  /** Bus traffic without the mux writes. */
  function Payload(bus: seq<Event>): seq<Event> {
    if bus == [] then []
    else Payload(bus[..|bus| - 1]) + if bus[|bus| - 1].Select? then [] else [bus[|bus| - 1]]
  }

  lemma {:induction false} PayloadAppend(a: seq<Event>, b: seq<Event>)
    ensures Payload(a + b) == Payload(a) + Payload(b)
    decreases |b|
  {
    if b == [] {
      assert a + b == a;
    } else {
      var n := |b| - 1;
      assert (a + b)[..|a + b| - 1] == a + b[..n];
      PayloadAppend(a, b[..n]);
    }
  }

  lemma {:induction false} PayloadAll(b: seq<Event>)
    requires forall i | 0 <= i < |b| :: !b[i].Select?
    ensures Payload(b) == b
  {
    if b != [] { PayloadAll(b[..|b| - 1]); }
  }

  lemma DataIsPayload(modtype: seq<ModType>, led: seq<bv8>, op: Op)
    requires |modtype| == NUM_CARDS && |led| >= 2 && op.Proper()
    ensures Payload(Data(modtype, led, op)) == Data(modtype, led, op)
  {
    var data := Data(modtype, led, op);
    forall i | 0 <= i < |data| ensures !data[i].Select? {}
    PayloadAll(data);
  }

  lemma RoutingIsNone(curcard: int, op: Op)
    ensures Payload(Routing(curcard, op)) == []
  {
    var mux := Routing(curcard, op);
    if mux != [] { assert mux[..0] == []; }
  }

  lemma SentPayload(curcard: int, modtype: seq<ModType>, led: seq<bv8>, op: Op)
    requires |modtype| == NUM_CARDS && |led| >= 2 && op.Proper()
    ensures Payload(Sent(curcard, modtype, led, op)) == Data(modtype, led, op)
  {
    PayloadAppend(Routing(curcard, op), Data(modtype, led, op));
    RoutingIsNone(curcard, op);
    DataIsPayload(modtype, led, op);
  }

  /** Whatever the cache held, the devices receive exactly the requested data. */
  lemma {:induction false} CacheIsInvisible(curcard: int, modtype: seq<ModType>, led: seq<bv8>, ops: seq<Op>)
    requires |modtype| == NUM_CARDS && |led| >= 2 && AllProper(ops)
    ensures Payload(Trace(curcard, modtype, led, ops)) == Requested(modtype, led, ops)
  {
    if ops != [] {
      var n := |ops| - 1;
      CacheIsInvisible(curcard, modtype, led, ops[..n]);
      var card, was := CardAfter(curcard, ops[..n]), LedAfter(led, ops[..n]);
      PayloadAppend(Trace(curcard, modtype, led, ops[..n]), Sent(card, modtype, was, ops[n]));
      SentPayload(card, modtype, was, ops[n]);
    }
  }

  lemma RunStep(curcard: int, modtype: seq<ModType>, led: seq<bv8>, ops: seq<Op>, n: nat)
    requires |modtype| == NUM_CARDS && |led| >= 2 && AllProper(ops) && n < |ops|
    ensures AllProper(ops[..n]) && AllProper(ops[..n + 1])
    ensures CardAfter(curcard, ops[..n + 1]) == CardAfter(CardAfter(curcard, ops[..n]), [ops[n]])
    ensures var was, op := LedAfter(led, ops[..n]), ops[n];
      && LedAfter(led, ops[..n + 1]) == (if op.DoSetLed? then SetColour(was, op.port, op.colour) else was)
      && Trace(curcard, modtype, led, ops[..n + 1]) ==
           Trace(curcard, modtype, led, ops[..n]) + Sent(CardAfter(curcard, ops[..n]), modtype, was, op)
  {
    var next := ops[..n + 1];
    assert |next| - 1 == n && next[..n] == ops[..n] && next[n] == ops[n];
  }

  /** The last colour asked for at a port, or what it was before. */
  function LastColour(ops: seq<Op>, port: nat, was: bv8): bv8 {
    if ops == [] then was
    else
      var op := ops[|ops| - 1];
      if op.DoSetLed? && op.port == port then op.colour else LastColour(ops[..|ops| - 1], port, was)
  }

  /** Each port of the shadow shows the last colour asked for. */
  lemma {:induction false} LedsShowLast(led: seq<bv8>, ops: seq<Op>, q: nat)
    requires |led| >= 2 && AllProper(ops) && 1 <= q <= 8
    ensures Colour(LedAfter(led, ops), q) == LastColour(ops, q, Colour(led, q))
  {
    if ops != [] {
      var n := |ops| - 1;
      LedsShowLast(led, ops[..n], q);
      if ops[n].DoSetLed? { SetColourExact(LedAfter(led, ops[..n]), ops[n].port, ops[n].colour, q); }
    }
  }

  // ---------- The driver in place ----------

  class Driver {
    var curcard: int
    const modtype: seq<ModType>
    var led: seq<bv8>
    var bus: seq<Event>

    /** The cache is empty or names the card that is really selected. */
    ghost predicate Valid()
      reads this
    {
      && |modtype| == NUM_CARDS && |led| == 4 && Safe(bus)
      && (curcard == NOTHING || (0 <= curcard < NUM_CARDS && Decoded(Selected(bus)) == Card(curcard)))
    }

    constructor (modtype: seq<ModType>)
      requires |modtype| == NUM_CARDS
      ensures Valid() && this.modtype == modtype && bus == [] && led == [0, 0, 0, 0]
    {
      this.modtype := modtype;
      curcard, led, bus := NOTHING, [0, 0, 0, 0], [];
    }

    method Put(e: Event)
      requires Safe(bus) && Addressed(Selected(bus), e)
      modifies this`bus
      ensures Safe(bus) && bus == old(bus) + [e] && Selected(bus) == if e.Select? then e.code else old(Selected(bus))
    {
      SafeExtend(bus, e);
      bus := bus + [e];
    }

    /** __wcfxs_setcard */
    method SetCard(card: nat)
      requires Valid() && card < NUM_CARDS
      modifies this`bus, this`curcard
      ensures Valid() && curcard == card && Decoded(Selected(bus)) == Card(card)
      ensures bus == old(bus) + Selection(old(curcard), card)
      ensures old(curcard) == card ==> bus == old(bus)
      ensures old(curcard) != card ==> |bus| == |old(bus)| + 1 && bus[|old(bus)|].Select?
    {
      if curcard != card {
        CodesReach(card, 0);
        Put(Select(CardCode(card)));
        curcard := card;
      }
    }

    /** Register bytes, while the card is selected. */
    method PutBytes(card: nat, bytes: seq<int>)
      requires Safe(bus) && Decoded(Selected(bus)) == Card(card)
      modifies this`bus
      ensures Safe(bus) && Decoded(Selected(bus)) == Card(card) && bus == old(bus) + RegBytes(card, bytes)
    {
      ghost var es := RegBytes(card, bytes);
      for i := 0 to |bytes|
        invariant Safe(bus) && Decoded(Selected(bus)) == Card(card) && bus == old(bus) + es[..i]
      {
        Put(RegByte(card, bytes[i]));
        assert es[..i + 1] == es[..i] + [es[i]];
      }
      assert es[..|bytes|] == es;
    }

    /** __wcfxs_setreg */
    method SetReg(card: nat, reg: nat, value: nat)
      requires Valid() && card < NUM_CARDS && reg < 256 && value < 256
      modifies this`bus, this`curcard
      ensures Valid() && curcard == card
      ensures bus == old(bus) + Selection(old(curcard), card) + RegBytes(card, WriteBytes(modtype[card], reg, value))
    {
      SetCard(card);
      PutBytes(card, if modtype[card] == FXO then [0x20, reg % 0x80, value] else [reg % 0x80, value]);
    }

    /** __wcfxs_getreg; the reply comes from the device and is not modelled. */
    method GetReg(card: nat, reg: nat)
      requires Valid() && card < NUM_CARDS && reg < 256
      modifies this`bus, this`curcard
      ensures Valid() && curcard == card
      ensures bus == old(bus) + Selection(old(curcard), card) + (RegBytes(card, ReadBytes(modtype[card], reg)) + [Read(card)])
    {
      SetCard(card);
      PutBytes(card, if modtype[card] == FXO then [0x60, reg % 0x80] else [reg % 0x80 + 0x80]);
      Put(Read(card));
    }

    /** wcfxs_set_led with fx_set_led: the mux moves, so the cache is dropped. */
    method SetLed(port: nat, colour: bv8)
      requires Valid() && 1 <= port <= 8 && colour <= 3
      modifies this`bus, this`curcard, this`led
      ensures Valid() && curcard == NOTHING && led == SetColour(old(led), port, colour)
      ensures forall q | 1 <= q <= 8 :: Colour(led, q) == if q == port then colour else Colour(old(led), q)
      ensures bus == old(bus) + [Select(LedCode(Board(port)))] + [LedByte(Board(port), led[Board(port)])]
    {
      var card := Board(port);
      CodesReach(0, card);
      Put(Select(LedCode(card)));
      forall q | 1 <= q <= 8
        ensures Colour(SetColour(led, port, colour), q) == if q == port then colour else Colour(led, q)
      {
        SetColourExact(led, port, colour, q);
      }
      led := led[card := SetPort(led[card], LocalPort(port), colour)];
      Put(LedByte(card, led[card]));
      curcard := NOTHING;
    }

    method Do(op: Op)
      requires Valid() && op.Proper()
      modifies this`bus, this`curcard, this`led
      ensures Valid() && curcard == CardAfter(old(curcard), [op])
      ensures led == if op.DoSetLed? then SetColour(old(led), op.port, op.colour) else old(led)
      ensures bus == old(bus) + Sent(old(curcard), modtype, old(led), op)
    {
      Regroup(bus, Routing(curcard, op), Data(modtype, led, op));
      match op {
        case DoSetReg(card, reg, value) => SetReg(card, reg, value);
        case DoGetReg(card, reg) => GetReg(card, reg);
        case DoSetLed(port, colour) => SetLed(port, colour);
      }
    }

    /** Any interleaving of the operations, each under the driver's lock: what was
        asked for is sent, in order, and every byte reaches its addressee. */
    method Run(ops: seq<Op>)
      requires Valid() && AllProper(ops)
      modifies this`bus, this`curcard, this`led
      ensures Valid() && curcard == CardAfter(old(curcard), ops) && led == LedAfter(old(led), ops)
      ensures bus == old(bus) + Trace(old(curcard), modtype, old(led), ops)
    {
      for n := 0 to |ops|
        invariant Valid() && curcard == CardAfter(old(curcard), ops[..n]) && led == LedAfter(old(led), ops[..n])
        invariant bus == old(bus) + Trace(old(curcard), modtype, old(led), ops[..n])
      {
        RunStep(old(curcard), modtype, old(led), ops, n);
        Regroup(old(bus), Trace(old(curcard), modtype, old(led), ops[..n]), Sent(curcard, modtype, led, ops[n]));
        Do(ops[n]);
      }
      assert ops[..|ops|] == ops;
    }
  }

  /** What a safe bus means for a single byte: in any history, the last mux write
      before it connects the module or the latch that it is meant for. */
  lemma SafeMeans(bus: seq<Event>, i: nat)
    requires Safe(bus) && i < |bus| && !bus[i].Select?
    ensures exists j :: 0 <= j < i && LastBefore(bus, j, i)
    ensures forall j | 0 <= j < i && LastBefore(bus, j, i) ::
      Decoded(bus[j].code) == if bus[i].LedByte? then Leds(bus[i].board) else Card(bus[i].card)
  {
    assert SafeAt(bus, i);
    var j := LastSelect(bus[..i]);
    assert LastBefore(bus, j, i);
    forall j | 0 <= j < i && LastBefore(bus, j, i) ensures bus[j].code == Selected(bus[..i]) {
      LastIsSelected(bus, j, i);
    }
  }

  lemma {:induction false} LastIsSelected(bus: seq<Event>, j: nat, i: nat)
    requires j < i <= |bus| && LastBefore(bus, j, i)
    ensures bus[j].code == Selected(bus[..i])
  {
    assert bus[..i][..i - 1] == bus[..i - 1];
    if j < i - 1 { LastIsSelected(bus, j, i - 1); }
  }

  /** Event j is the last mux write before event i. */
  ghost predicate LastBefore(bus: seq<Event>, j: int, i: int)
    requires 0 <= j < i <= |bus|
  {
    bus[j].Select? && forall k | j < k < i :: !bus[k].Select?
  }

  lemma {:induction false} LastSelect(bus: seq<Event>) returns (j: nat)
    requires Selected(bus) != NOTHING
    ensures j < |bus| && bus[j] == Select(Selected(bus)) && forall k | j < k < |bus| :: !bus[k].Select?
    decreases |bus|
  {
    if bus[|bus| - 1].Select? {
      j := |bus| - 1;
    } else {
      j := LastSelect(bus[..|bus| - 1]);
    }
  }
}

/** The hook and battery debouncers that the interrupt handler polls
    (src/wcfxs.c, wcfxs_proslic_check_hook and wcfxs_voicedaa_check_hook). */
module HookDetect {

  const CHUNK_SIZE := 8

  datatype Signal = OnHook | OffHook | Ring | Polarity

  // ---------- FXS: hook switch of a telephone ----------

  datatype FxsState = FxsState(oldrxhook: bool, debouncehook: bool, lastrxhook: bool, debounce: int)

  const FXS_RESET := FxsState(false, false, false, 0)

  function FxsStep(s: FxsState, hook: bool): (FxsState, seq<Signal>) {
    if hook != s.lastrxhook then (s.(debounce := 8 * (4 * 8), lastrxhook := hook), [])
    else if s.debounce <= 0 then (s, [])
    else
      var d := s.debounce - 4 * CHUNK_SIZE;
      var h := if d == 0 then hook else s.debouncehook;
      var t := s.(debounce := d, debouncehook := h);
      if !s.oldrxhook && h then (t.(oldrxhook := true), [OffHook])
      else if s.oldrxhook && !h then (t.(oldrxhook := false), [OnHook])
      else (t, [])
  }

  function FxsRun(rs: seq<bool>): FxsState {
    if rs == [] then FXS_RESET else FxsStep(FxsRun(rs[..|rs| - 1]), rs[|rs| - 1]).0
  }

  /** All signals sent over the readings. */
  function FxsSignals(rs: seq<bool>): seq<Signal> {
    if rs == [] then []
    else FxsSignals(rs[..|rs| - 1]) + FxsStep(FxsRun(rs[..|rs| - 1]), rs[|rs| - 1]).1
  }

  /** How many of the last readings equal v. */
  function Trailing<T(==)>(rs: seq<T>, v: T): (n: nat)
    ensures n <= |rs|
  {
    if rs == [] || rs[|rs| - 1] != v then 0 else 1 + Trailing(rs[..|rs| - 1], v)
  }

  lemma {:induction false} TrailingMeans<T>(rs: seq<T>, v: T)
    ensures var n := Trailing(rs, v);
      (forall i | |rs| - n <= i < |rs| :: rs[i] == v) && (n < |rs| ==> rs[|rs| - n - 1] != v)
  {
    if rs != [] {
      TrailingMeans(rs[..|rs| - 1], v);
    }
  }

  lemma TrailingAppend<T>(rs: seq<T>, v: T, w: T)
    ensures Trailing(rs + [w], v) == if w == v then 1 + Trailing(rs, v) else 0
  {
    assert (rs + [w])[..|rs|] == rs;
  }

  /** Reference: the value of the latest nine equal consecutive readings. */
  function Stable(rs: seq<bool>): bool {
    if rs == [] then false
    else if Trailing(rs, rs[|rs| - 1]) >= 9 then rs[|rs| - 1]
    else Stable(rs[..|rs| - 1])
  }

  /** The debouncer's registers, in terms of the readings alone: the counter runs
      down by 32 from 256 at each change, and the hook is the stable value. */
  ghost predicate FxsExact(rs: seq<bool>) {
    var s, n := FxsRun(rs), |rs|;
    && s.oldrxhook == Stable(rs) && s.debouncehook == Stable(rs)
    && s.lastrxhook == (n > 0 && rs[n - 1])
    && s.debounce == Countdown(rs)
  }

  function Countdown(rs: seq<bool>): int {
    if rs == [] || Trailing(rs, false) == |rs| then 0
    else
      var t := Trailing(rs, rs[|rs| - 1]);
      if t < 9 then 256 - 32 * (t - 1) else 0
  }

  lemma {:induction false} AllFalse(rs: seq<bool>)
    requires Trailing(rs, false) == |rs|
    ensures !Stable(rs)
  {
    if rs != [] {
      AllFalse(rs[..|rs| - 1]);
    }
  }

  lemma FxsExactStep(g: seq<bool>, h: bool)
    requires FxsExact(g)
    ensures FxsExact(g + [h])
  {
    var rs := g + [h];
    assert rs[..|g|] == g;
    if Trailing(g, false) == |g| {
      AllFalse(g);
    }
    TrailingAppend(g, h, h);
    TrailingAppend(g, false, h);
  }

  lemma {:induction false} FxsRunExact(rs: seq<bool>)
    ensures FxsExact(rs) && 0 <= FxsRun(rs).debounce <= 256
  {
    if rs != [] {
      FxsRunExact(rs[..|rs| - 1]);
      FxsExactStep(rs[..|rs| - 1], rs[|rs| - 1]);
      assert rs == rs[..|rs| - 1] + [rs[|rs| - 1]];
    }
  }

  /** A signal is sent exactly when the stable value changes, which takes nine
      equal readings, and it says the new value. */
  lemma FxsSignalExact(rs: seq<bool>)
    requires rs != []
    ensures var before := rs[..|rs| - 1];
      FxsStep(FxsRun(before), rs[|rs| - 1]).1 ==
        if Stable(rs) == Stable(before) then [] else if Stable(rs) then [OffHook] else [OnHook]
    ensures Stable(rs) != Stable(rs[..|rs| - 1]) ==> Trailing(rs, Stable(rs)) >= 9
  {
    FxsRunExact(rs[..|rs| - 1]);
    FxsRunExact(rs);
    assert rs == rs[..|rs| - 1] + [rs[|rs| - 1]];
  }

  /** Over any readings the signals strictly alternate, off-hook first. */
  lemma {:induction false} FxsAlternates(rs: seq<bool>)
    ensures var g := FxsSignals(rs);
      && (forall i | 0 <= i < |g| :: g[i] == if i % 2 == 0 then OffHook else OnHook)
      && (|g| % 2 == 1 <==> Stable(rs))
  {
    if rs != [] {
      FxsAlternates(rs[..|rs| - 1]);
      FxsSignalExact(rs);
    }
  }

  class FxsPort {
    var oldrxhook: bool
    var debouncehook: bool
    var lastrxhook: bool
    var debounce: int
    ghost var readings: seq<bool>
    ghost var sent: seq<Signal>

    ghost predicate Valid()
      reads this
    {
      FxsRun(readings) == FxsState(oldrxhook, debouncehook, lastrxhook, debounce) && sent == FxsSignals(readings)
    }

    constructor ()
      ensures Valid() && readings == []
    {
      oldrxhook, debouncehook, lastrxhook, debounce := false, false, false, 0;
      readings, sent := [], [];
    }

    /** wcfxs_proslic_check_hook */
    method CheckHook(hook: bool) returns (signals: seq<Signal>)
      requires Valid()
      modifies this
      ensures Valid() && readings == old(readings) + [hook] && sent == old(sent) + signals
    {
      signals := [];
      readings := readings + [hook];
      assert readings[..|readings| - 1] == old(readings);
      if hook != lastrxhook {
        debounce := 8 * (4 * 8);
      } else if debounce > 0 {
        debounce := debounce - 4 * CHUNK_SIZE;
        if debounce == 0 {
          debouncehook := hook;
        }
        if !oldrxhook && debouncehook {
          signals := [OffHook];
          oldrxhook := true;
        } else if oldrxhook && !debouncehook {
          signals := [OnHook];
          oldrxhook := false;
        }
      }
      lastrxhook := hook;
      sent := sent + signals;
    }
  }

  // ---------- FXO: ring, battery and polarity of a line ----------

  const BATT_DEBOUNCE := 64
  const POLARITY_DEBOUNCE := 64
  const BATT_THRESH := 3
  const NUM_CARDS := 8

  function Abs(x: int): nat { if x < 0 then -x else x }

  datatype Level = Low | Middle | Strong

  /** Reference: within 2 of zero is low, beyond 3 is strong. */
  function LevelOf(b: int): Level {
    if -2 <= b <= 2 then Low else if -3 <= b <= 3 then Middle else Strong
  }

  datatype Battery = Battery(battery: bool, debounce: int, timer: nat)

  const BATTERY_RESET := Battery(false, 0, 0)

  function BatteryStep(s: Battery, b: int): (Battery, seq<Signal>) {
    var (t, sig) :=
      if Abs(b) < BATT_THRESH then
        if s.battery && s.debounce == 0 then (Battery(false, BATT_DEBOUNCE, s.timer + 1), [OnHook])
        else (s.(timer := s.timer + 1, debounce := if s.battery then s.debounce else BATT_DEBOUNCE), [])
      else if Abs(b) > BATT_THRESH then
        if !s.battery && s.debounce == 0 then (Battery(true, BATT_DEBOUNCE, 0), [OffHook])
        else (s.(debounce := if s.battery then BATT_DEBOUNCE else s.debounce), [])
      else (s.(debounce := BATT_DEBOUNCE), []);
    (if t.debounce != 0 then t.(debounce := t.debounce - NUM_CARDS / 4) else t, sig)
  }

  function BatteryRun(bs: seq<int>): Battery {
    if bs == [] then BATTERY_RESET else BatteryStep(BatteryRun(bs[..|bs| - 1]), bs[|bs| - 1]).0
  }

  function Levels(bs: seq<int>): (l: seq<Level>)
    ensures |l| == |bs| && forall i | 0 <= i < |bs| :: l[i] == LevelOf(bs[i])
  {
    seq(|bs|, i requires 0 <= i < |bs| => LevelOf(bs[i]))
  }

  /** Reference: whether battery is held.  It is lost at the 32nd consecutive low
      reading and regained at the 32nd consecutive strong one, or at once by the
      very first reading. */
  function Held(ls: seq<Level>): bool {
    if ls == [] then false
    else if |ls| == 1 then ls[0] == Strong
    else if Held(ls[..|ls| - 1]) then Trailing(ls, Low) != 32
    else Trailing(ls, Strong) == 32
  }

  lemma {:induction false} BatteryRunExact(bs: seq<int>)
    ensures var s, ls := BatteryRun(bs), Levels(bs);
      && s.battery == Held(ls)
      && (bs == [] ==> s.debounce == 0)
      && (bs != [] ==> s.debounce == 62 - 2 * Trailing(ls, if Held(ls) then Low else Strong))
      && 0 <= s.debounce <= 62
  {
    if bs != [] {
      var n := |bs| - 1;
      BatteryRunExact(bs[..n]);
      assert Levels(bs)[..n] == Levels(bs[..n]);
    }
  }

  /** Loss and regain are signalled exactly when Held changes. */
  lemma BatterySignalExact(bs: seq<int>)
    requires bs != []
    ensures var n := |bs| - 1;
      var h, h' := Held(Levels(bs[..n])), Held(Levels(bs));
      BatteryStep(BatteryRun(bs[..n]), bs[n]).1 == if h == h' then [] else if h' then [OffHook] else [OnHook]
  {
    BatteryRunExact(bs[..|bs| - 1]);
    BatteryRunExact(bs);
  }

  datatype Ringer = Ringer(wasringing: bool, debounce: int)

  const RINGER_RESET := Ringer(false, 0)

  /** One reading of the ring detector while the line is not off hook. */
  function RingStep(s: Ringer, ringing: bool): (Ringer, seq<Signal>) {
    if ringing then
      var d := s.debounce + CHUNK_SIZE * NUM_CARDS;
      if d >= CHUNK_SIZE * 64 then (Ringer(true, CHUNK_SIZE * 64), if s.wasringing then [] else [Ring])
      else (s.(debounce := d), [])
    else
      var d := s.debounce - CHUNK_SIZE;
      if d <= 0 then (Ringer(false, 0), if s.wasringing then [OffHook] else [])
      else (s.(debounce := d), [])
  }

  function RingRun(rs: seq<bool>): Ringer {
    if rs == [] then RINGER_RESET else RingStep(RingRun(rs[..|rs| - 1]), rs[|rs| - 1]).0
  }

  function RingSignals(rs: seq<bool>): seq<Signal> {
    if rs == [] then []
    else RingSignals(rs[..|rs| - 1]) + RingStep(RingRun(rs[..|rs| - 1]), rs[|rs| - 1]).1
  }

  const FULL := 512  // what CHUNK_SIZE * 64 comes to

  /** Each ringing reading weighs 64, each silent one -8. */
  function Weight(ringing: bool): int { if ringing then 64 else -8 }

  /** The weight of the readings from i on. */
  function WeightFrom(rs: seq<bool>, i: nat): int {
    if i >= |rs| then 0 else WeightFrom(rs[..|rs| - 1], i) + Weight(rs[|rs| - 1])
  }

  /** The readings from i on weigh at least v, and none of their tails falls so far
      short of it that what spilled over at the top would be missing. */
  ghost predicate Lifts(rs: seq<bool>, i: nat, v: int) {
    i <= |rs| && WeightFrom(rs, i) >= v && forall j: nat | i <= j <= |rs| :: WeightFrom(rs, j) >= v - FULL
  }

  lemma LiftStep(rs: seq<bool>, r: bool, i: nat, v: int)
    requires 1 <= v <= FULL
    ensures Lifts(rs + [r], i, v) <==> Lifts(rs, i, v - Weight(r))
  {
    var g := rs + [r];
    assert g[..|g| - 1] == rs;
    assert forall j: nat | j <= |rs| :: WeightFrom(g, j) == WeightFrom(rs, j) + Weight(r);
    assert WeightFrom(g, |g|) == 0;
  }

  /** The leaky counter, saturating at 0 and at 512, in terms of the readings
      alone: it is at least v exactly when some tail of them lifts it there. */
  lemma {:induction false} RingCounterExact(rs: seq<bool>, v: int)
    ensures 0 <= RingRun(rs).debounce <= FULL
    ensures RingRun(rs).debounce >= v <==> exists i: nat :: Lifts(rs, i, v)
    decreases |rs|
  {
    assert WeightFrom(rs, |rs|) == 0;
    if rs != [] { RingCounterRange(rs[..|rs| - 1]); }
    RingCounterRange(rs);
    if v <= 0 {
      assert Lifts(rs, |rs|, v);
    } else if 1 <= v <= FULL && rs != [] {
      var n := |rs| - 1;
      var g, u := rs[..n], v - Weight(rs[n]);
      assert rs == g + [rs[n]];
      RingCounterExact(g, u);
      forall i: nat ensures Lifts(rs, i, v) <==> Lifts(g, i, u) { LiftStep(g, rs[n], i, v); }
    }
  }

  lemma {:induction false} RingCounterRange(rs: seq<bool>)
    ensures 0 <= RingRun(rs).debounce <= FULL
  {
    if rs != [] { RingCounterRange(rs[..|rs| - 1]); }
  }

  /** Reference: whether the line counts as ringing.  It does once the readings
      fill the counter, and until they have emptied it. */
  ghost function Rings(rs: seq<bool>): bool {
    if rs == [] then false
    else if exists i: nat :: Lifts(rs, i, FULL) then true
    else (exists i: nat :: Lifts(rs, i, 1)) && Rings(rs[..|rs| - 1])
  }

  lemma {:induction false} RingRunExact(rs: seq<bool>)
    ensures RingRun(rs).wasringing == Rings(rs)
  {
    if rs != [] {
      RingRunExact(rs[..|rs| - 1]);
      RingCounterRange(rs[..|rs| - 1]);
      RingCounterExact(rs, FULL);
      RingCounterExact(rs, 1);
    }
  }

  /** A signal for each change of a condition. */
  function Edge(was: bool, now: bool, on: Signal, off: Signal): seq<Signal> {
    if was == now then [] else if now then [on] else [off]
  }

  lemma RingSignalExact(rs: seq<bool>)
    requires rs != []
    ensures var n := |rs| - 1;
      RingStep(RingRun(rs[..n]), rs[n]).1 == Edge(Rings(rs[..n]), Rings(rs), Ring, OffHook)
  {
    RingRunExact(rs[..|rs| - 1]);
    RingRunExact(rs);
    RingCounterRange(rs[..|rs| - 1]);
  }

  /** Over any readings the ring signals strictly alternate, Ring first. */
  lemma {:induction false} RingAlternates(rs: seq<bool>)
    ensures var g := RingSignals(rs);
      && (forall i | 0 <= i < |g| :: g[i] == if i % 2 == 0 then Ring else OffHook)
      && (|g| % 2 == 1 <==> Rings(rs))
  {
    if rs != [] {
      RingAlternates(rs[..|rs| - 1]);
      RingSignalExact(rs);
    }
  }

  datatype Line = Line(lastpol: int, polarity: int, debounce: int)

  const LINE_RESET := Line(0, 0, 0)

  function PolarityStep(s: Line, b: int): (Line, seq<Signal>) {
    var t := if Abs(b) > BATT_THRESH
      then
        var u := if s.lastpol >= 0 && b < 0 then s.(lastpol := -1, debounce := POLARITY_DEBOUNCE) else s;
        if u.lastpol <= 0 && b > 0 then u.(lastpol := 1, debounce := POLARITY_DEBOUNCE) else u
      else s;
    if t.debounce == 0 then (t, [])
    else
      var d := t.debounce - 1;
      if d < 1 && t.lastpol != t.polarity
      then (t.(debounce := d, polarity := t.lastpol), if t.polarity != 0 then [Polarity] else [])
      else (t.(debounce := d), [])
  }

  function LineRun(bs: seq<int>): Line {
    if bs == [] then LINE_RESET else PolarityStep(LineRun(bs[..|bs| - 1]), bs[|bs| - 1]).0
  }

  /** Reference: the sign of the latest strong reading. */
  function Seen(bs: seq<int>): int {
    if bs == [] then 0
    else if LevelOf(bs[|bs| - 1]) == Strong then (if bs[|bs| - 1] < 0 then -1 else 1)
    else Seen(bs[..|bs| - 1])
  }

  /** Reference: for how many polls that sign has been the same; it counts as
      settled before the first strong reading. */
  function Settled(bs: seq<int>): nat {
    if bs == [] then 64
    else if Seen(bs) != Seen(bs[..|bs| - 1]) then 1
    else Settled(bs[..|bs| - 1]) + 1
  }

  /** Reference: the sign that last was the same for 64 polls. */
  function Reported(bs: seq<int>): int {
    if bs == [] then 0
    else if Settled(bs) == 64 then Seen(bs)
    else Reported(bs[..|bs| - 1])
  }

  lemma {:induction false} LineRunExact(bs: seq<int>)
    ensures LineRun(bs) ==
      Line(Seen(bs), Reported(bs), if Settled(bs) < 64 then 64 - Settled(bs) else 0)
    ensures -1 <= Seen(bs) <= 1 && -1 <= Reported(bs) <= 1
    ensures Settled(bs) >= 64 ==> Reported(bs) == Seen(bs)
  {
    if bs != [] {
      LineRunExact(bs[..|bs| - 1]);
    }
  }

  /** A reversal is signalled exactly when the reported sign changes, other than
      from none at the start. */
  lemma LineSignalExact(bs: seq<int>)
    requires bs != []
    ensures var was, now := Reported(bs[..|bs| - 1]), Reported(bs);
      PolarityStep(LineRun(bs[..|bs| - 1]), bs[|bs| - 1]).1 == if was != now && was != 0 then [Polarity] else []
  {
    LineRunExact(bs[..|bs| - 1]);
  }

  /** One poll of a line: ring register, voltage, and whether it is off hook. */
  datatype Poll = Poll(ring: bool, b: int, offhook: bool)

  datatype FxoState = FxoState(ringer: Ringer, battery: Battery, line: Line)

  const FXO_RESET := FxoState(RINGER_RESET, BATTERY_RESET, LINE_RESET)

  function FxoStep(s: FxoState, p: Poll): (FxoState, seq<Signal>) {
    var (r, g) := if p.offhook then (s.ringer, []) else RingStep(s.ringer, p.ring && s.battery.battery);
    var (bt, h) := BatteryStep(s.battery, p.b);
    var (l, k) := PolarityStep(s.line, p.b);
    (FxoState(r, bt, l), g + h + k)
  }

  function FxoRun(ps: seq<Poll>): FxoState {
    if ps == [] then FXO_RESET else FxoStep(FxoRun(ps[..|ps| - 1]), ps[|ps| - 1]).0
  }

  function Voltages(ps: seq<Poll>): (bs: seq<int>)
    ensures |bs| == |ps| && forall i | 0 <= i < |ps| :: bs[i] == ps[i].b
  {
    seq(|ps|, i requires 0 <= i < |ps| => ps[i].b)
  }

  /** What the ring detector reads: nothing while off hook, and no ringing without
      battery. */
  function Ringing(ps: seq<Poll>): seq<bool> {
    if ps == [] then []
    else
      var n := |ps| - 1;
      if ps[n].offhook then Ringing(ps[..n])
      else Ringing(ps[..n]) + [ps[n].ring && Held(Levels(Voltages(ps[..n])))]
  }

  /** Over any polls ringing, battery and polarity all follow their references, and
      every counter stays in its range. */
  lemma {:induction false} FxoRunExact(ps: seq<Poll>)
    ensures var s, bs := FxoRun(ps), Voltages(ps);
      && s.ringer == RingRun(Ringing(ps)) && s.ringer.wasringing == Rings(Ringing(ps))
      && s.battery == BatteryRun(bs) && s.battery.battery == Held(Levels(bs))
      && s.line == LineRun(bs) && s.line.polarity == Reported(bs)
      && 0 <= s.ringer.debounce <= FULL && 0 <= s.battery.debounce <= 62 && 0 <= s.line.debounce < 64
  {
    RingCounterRange(Ringing(ps));
    RingRunExact(Ringing(ps));
    BatteryRunExact(Voltages(ps));
    LineRunExact(Voltages(ps));
    if ps != [] {
      var n := |ps| - 1;
      FxoRunExact(ps[..n]);
      assert Voltages(ps)[..n] == Voltages(ps[..n]);
      RingingStep(ps);
    }
  }

  lemma RingingStep(ps: seq<Poll>)
    requires ps != []
    ensures var n := |ps| - 1;
      var r := RingRun(Ringing(ps[..n]));
      RingRun(Ringing(ps)) ==
        if ps[n].offhook then r else RingStep(r, ps[n].ring && Held(Levels(Voltages(ps[..n])))).0
  {
    var n := |ps| - 1;
    if !ps[n].offhook {
      assert Ringing(ps)[..|Ringing(ps)| - 1] == Ringing(ps[..n]);
    }
  }

  /** Every signal of a poll is a change of one of the three references, in the
      order ring, battery, polarity. */
  lemma FxoSignalExact(ps: seq<Poll>)
    requires ps != []
    ensures var n := |ps| - 1;
      var bs, bs' := Voltages(ps[..n]), Voltages(ps);
      FxoStep(FxoRun(ps[..n]), ps[n]).1 ==
        Edge(Rings(Ringing(ps[..n])), Rings(Ringing(ps)), Ring, OffHook)
        + Edge(Held(Levels(bs)), Held(Levels(bs')), OffHook, OnHook)
        + (if Reported(bs) != Reported(bs') && Reported(bs) != 0 then [Polarity] else [])
  {
    var n := |ps| - 1;
    var bs := Voltages(ps);
    assert bs[..n] == Voltages(ps[..n]);
    FxoRunExact(ps[..n]);
    BatterySignalExact(bs);
    LineSignalExact(bs);
    RingPart(ps);
  }

  lemma RingPart(ps: seq<Poll>)
    requires ps != []
    ensures var n := |ps| - 1;
      var ringing := ps[n].ring && Held(Levels(Voltages(ps[..n])));
      Edge(Rings(Ringing(ps[..n])), Rings(Ringing(ps)), Ring, OffHook) ==
        if ps[n].offhook then [] else RingStep(RingRun(Ringing(ps[..n])), ringing).1
  {
    var n := |ps| - 1;
    if !ps[n].offhook {
      var rs := Ringing(ps);
      assert rs[..|rs| - 1] == Ringing(ps[..n]);
      RingSignalExact(rs);
    }
  }

  class FxoPort {
    var wasringing: bool
    var ringdebounce: int
    var battery: bool
    var battdebounce: int
    var nobatttimer: nat
    var lastpol: int
    var polarity: int
    var polaritydebounce: int
    ghost var polls: seq<Poll>

    ghost function State(): FxoState
      reads this
    {
      FxoState(Ringer(wasringing, ringdebounce), Battery(battery, battdebounce, nobatttimer),
               Line(lastpol, polarity, polaritydebounce))
    }

    ghost predicate Valid()
      reads this
    {
      State() == FxoRun(polls)
    }

    constructor ()
      ensures Valid() && polls == []
    {
      wasringing, ringdebounce := false, 0;
      battery, battdebounce, nobatttimer := false, 0, 0;
      lastpol, polarity, polaritydebounce := 0, 0, 0;
      polls := [];
    }

    /** wcfxs_voicedaa_check_hook */
    method CheckHook(ring: bool, b: int, offhook: bool) returns (signals: seq<Signal>)
      requires Valid()
      modifies this
      ensures Valid() && polls == old(polls) + [Poll(ring, b, offhook)]
      ensures signals == FxoStep(FxoRun(old(polls)), Poll(ring, b, offhook)).1
    {
      ghost var s, p := State(), Poll(ring, b, offhook);
      var g: seq<Signal> := [];
      if !offhook {
        g := CheckRing(ring && battery);
      }
      var h := CheckBattery(b);
      var k := CheckPolarity(b);
      signals := g + h + k;
      assert (State(), signals) == FxoStep(s, p);
      polls := polls + [p];
      assert polls[..|polls| - 1] == old(polls);
    }

    method CheckRing(ringing: bool) returns (signals: seq<Signal>)
      modifies this`wasringing, this`ringdebounce
      ensures (Ringer(wasringing, ringdebounce), signals) == RingStep(Ringer(old(wasringing), old(ringdebounce)), ringing)
    {
      signals := [];
      if ringing {
        ringdebounce := ringdebounce + CHUNK_SIZE * NUM_CARDS;
        if ringdebounce >= CHUNK_SIZE * 64 {
          if !wasringing {
            wasringing := true;
            signals := [Ring];
          }
          ringdebounce := CHUNK_SIZE * 64;
        }
      } else {
        ringdebounce := ringdebounce - CHUNK_SIZE;
        if ringdebounce <= 0 {
          if wasringing {
            wasringing := false;
            signals := [OffHook];
          }
          ringdebounce := 0;
        }
      }
    }

    method CheckBattery(b: int) returns (signals: seq<Signal>)
      modifies this`battery, this`battdebounce, this`nobatttimer
      ensures (Battery(battery, battdebounce, nobatttimer), signals)
           == BatteryStep(Battery(old(battery), old(battdebounce), old(nobatttimer)), b)
    {
      signals := [];
      if Abs(b) < BATT_THRESH {
        nobatttimer := nobatttimer + 1;
        if battery && battdebounce == 0 {
          battery := false;
          signals := [OnHook];
          battdebounce := BATT_DEBOUNCE;
        } else if !battery {
          battdebounce := BATT_DEBOUNCE;
        }
      } else if Abs(b) > BATT_THRESH {
        if !battery && battdebounce == 0 {
          signals := [OffHook];
          battery := true;
          nobatttimer := 0;
          battdebounce := BATT_DEBOUNCE;
        } else if battery {
          battdebounce := BATT_DEBOUNCE;
        }
      } else {
        battdebounce := BATT_DEBOUNCE;
      }
      if battdebounce != 0 {
        battdebounce := battdebounce - NUM_CARDS / 4;
      }
    }

    method CheckPolarity(b: int) returns (signals: seq<Signal>)
      modifies this`lastpol, this`polarity, this`polaritydebounce
      ensures (Line(lastpol, polarity, polaritydebounce), signals)
           == PolarityStep(Line(old(lastpol), old(polarity), old(polaritydebounce)), b)
    {
      signals := [];
      if Abs(b) > BATT_THRESH {
        if lastpol >= 0 && b < 0 {
          lastpol := -1;
          polaritydebounce := POLARITY_DEBOUNCE;
        }
        if lastpol <= 0 && b > 0 {
          lastpol := 1;
          polaritydebounce := POLARITY_DEBOUNCE;
        }
      }
      if polaritydebounce != 0 {
        polaritydebounce := polaritydebounce - 1;
        if polaritydebounce < 1 {
          if lastpol != polarity {
            if polarity != 0 {
              signals := [Polarity];
            }
            polarity := lastpol;
          }
        }
      }
    }
  }
}
