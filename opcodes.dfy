/**
 * The firmware command encoder of the MX5-R2 keyboard-LED driver: the eight lighting modes,
 * the 32-bit opcodes the driver hands to the firmware's SET_KB_LED entry point, and the
 * 24-bit packing of a colour into the driver's `unsigned int` colour slots.
 *
 * `Decode` is not part of the driver; it reads the wire format back and shows that the
 * four kinds of opcode the driver emits can never be confused with one another.
 */
module Opcodes {
  import opened Optional

  /** The firmware's lighting modes, in the order of their enumeration values 0..7. */
  datatype Mode = RandomColor | Custom | Breathe | Cycle | Wave | Dance | Tempo | Flash

  const ModeCount: bv8 := 8

  /** The enumeration value of a mode. */
  function Index(m: Mode): (i: bv8)
    ensures i < ModeCount
    ensures (i == 1) == (m == Custom)
  {
    match m
    case RandomColor => 0
    case Custom => 1
    case Breathe => 2
    case Cycle => 3
    case Wave => 4
    case Dance => 5
    case Tempo => 6
    case Flash => 7
  }

  /** The mode with enumeration value `i`, if there is one. */
  function ModeAt(i: bv8): (r: Option<Mode>)
    ensures r.Some? <==> i < ModeCount
    ensures r.Some? ==> Index(r.value) == i
  {
    if i == 0 then Some(RandomColor)
    else if i == 1 then Some(Custom)
    else if i == 2 then Some(Breathe)
    else if i == 3 then Some(Cycle)
    else if i == 4 then Some(Wave)
    else if i == 5 then Some(Dance)
    else if i == 6 then Some(Tempo)
    else if i == 7 then Some(Flash)
    else None
  }

  lemma ModeAtIndex(m: Mode)
    ensures ModeAt(Index(m)) == Some(m)
  {
  }

  // ---------------------------------------------------------------------------------------
  // Bytes

  /**
   * The conversion of an `unsigned int` to an `unsigned char` (an explicit cast, or passing it
   * to an `unsigned char` parameter): keep the low byte, i.e. reduce modulo 256.
   */
  function Low8(x: bv32): (b: bv8)
    ensures b == (x % 256) as bv8
    ensures b as bv32 == x & 0xFF
  {
    (x & 0xFF) as bv8
  }

  // ---------------------------------------------------------------------------------------
  // Colours as stored by the driver: red << 16 | green << 8 | blue

  function Pack(red: bv8, green: bv8, blue: bv8): (c: bv32)
    ensures c < 0x100_0000
    ensures Unpack(c) == (red, green, blue)
  {
    ((red as bv32) << 16) | ((green as bv32) << 8) | (blue as bv32)
  }

  /** The three channels the driver reads back out of a stored colour: `>> 16`, `(>> 8) & 0xFF`, `& 0xFF`. */
  function Unpack(c: bv32): (r: (bv8, bv8, bv8))
    ensures r.0 as bv32 == (c >> 16) & 0xFF && r.1 as bv32 == (c >> 8) & 0xFF && r.2 as bv32 == c & 0xFF
    ensures c < 0x100_0000 ==> r.0 as bv32 == c >> 16
  {
    (Low8(c >> 16), Low8((c >> 8) & 0xFF), Low8(c & 0xFF))
  }

  /** A packed colour (one below 2^24) is determined by its three unpacked channels. */
  lemma PackUnpack(c: bv32)
    requires c < 0x100_0000
    ensures Pack(Unpack(c).0, Unpack(c).1, Unpack(c).2) == c
  {
  }

  // ---------------------------------------------------------------------------------------
  // Opcodes

  /** Sent before every mode change. */
  const ModeReset: bv32 := 0x1000_0000

  /**
   * The per-mode command table, indexed by enumeration value. The Custom entry is 0 and is
   * never sent: Custom mode is entered by re-sending the stored colours and brightness.
   */
  const Cmds: seq<bv32> := [
    0x7000_0000,  // RandomColor
    0,            // Custom
    0x1002_a000,  // Breathe
    0x3301_0000,  // Cycle
    0xB000_0000,  // Wave
    0x8000_0000,  // Dance
    0x9000_0000,  // Tempo
    0xA000_0000   // Flash
  ]

  /** `0xF0000000 | region << 24 | blue << 16 | red << 8 | green`. */
  function ColorOpcode(region: bv8, red: bv8, green: bv8, blue: bv8): (op: bv32)
    ensures op >> 24 == 0xF0 | region as bv32
    ensures (op >> 16) & 0xFF == blue as bv32 && (op >> 8) & 0xFF == red as bv32 && op & 0xFF == green as bv32
  {
    0xF000_0000 | ((region as bv32) << 24) | ((blue as bv32) << 16) | ((red as bv32) << 8) | (green as bv32)
  }

  /** `0xF4000000 | brightness`. */
  function BrightnessOpcode(brightness: bv8): (op: bv32)
    ensures op >> 8 == 0xF4_0000
    ensures Low8(op) == brightness
  {
    0xF400_0000 | (brightness as bv32)
  }

  /** The table entry for a mode; zero exactly for Custom, and never the reset opcode. */
  function ModeCommand(m: Mode): (op: bv32)
    ensures op == 0 <==> m == Custom
    ensures op != ModeReset
  {
    Cmds[Index(m)]
  }

  // ---------------------------------------------------------------------------------------
  // Reading the wire format back

  datatype Command =
    | SetColor(region: bv8, red: bv8, green: bv8, blue: bv8)
    | SetBrightness(level: bv8)
    | ResetMode
    | SelectMode(mode: Mode)

  /** The commands the driver can emit: a colour for one of the three regions, a non-Custom mode. */
  predicate WellFormed(c: Command)
  {
    (c.SetColor? ==> c.region < 3) && (c.SelectMode? ==> c.mode != Custom)
  }

  function Encode(c: Command): bv32
  {
    match c
    case SetColor(region, red, green, blue) => ColorOpcode(region, red, green, blue)
    case SetBrightness(level) => BrightnessOpcode(level)
    case ResetMode => ModeReset
    case SelectMode(m) => ModeCommand(m)
  }

  /** The first non-Custom mode at or after enumeration value `i` whose table entry is `op`. */
  function FindCommand(op: bv32, i: nat): (r: Option<Mode>)
    requires i <= 8
    decreases 8 - i
    ensures r.Some? ==> r.value != Custom && ModeCommand(r.value) == op && i <= Index(r.value) as int
  {
    if i == 8 then None
    else if i != 1 && Cmds[i] == op then ModeAt(i as bv8)
    else FindCommand(op, i + 1)
  }

  function Decode(op: bv32): (c: Option<Command>)
    ensures c.Some? ==> WellFormed(c.value) && Encode(c.value) == op
  {
    if op == ModeReset then Some(ResetMode)
    else if 0xF0 <= op >> 24 < 0xF3 then
      Some(SetColor(Low8(op >> 24) - 0xF0, Low8(op >> 8), Low8(op), Low8(op >> 16)))
    else if op >> 8 == 0xF4_0000 then Some(SetBrightness(Low8(op)))
    else match FindCommand(op, 0)
      case Some(m) => Some(SelectMode(m))
      case None => None
  }

  /** The table entries are pairwise distinct, so the search finds the mode whose entry it is. */
  lemma {:induction false} FindCommandOf(m: Mode, i: nat)
    requires m != Custom && i <= Index(m) as int
    decreases 8 - i
    ensures FindCommand(ModeCommand(m), i) == Some(m)
  {
    if i < Index(m) as int {
      FindCommandOf(m, i + 1);
    } else {
      ModeAtIndex(m);
    }
  }

  /** Every opcode the driver emits decodes to the command it was built from. */
  lemma DecodeEncode(c: Command)
    requires WellFormed(c)
    ensures Decode(Encode(c)) == Some(c)
  {
    match c
    case SetColor(region, red, green, blue) =>
      var op := ColorOpcode(region, red, green, blue);
      assert op >> 24 == 0xF0 + region as bv32;
      assert Low8(op >> 24) - 0xF0 == region;
    case SetBrightness(level) =>
    case ResetMode =>
    case SelectMode(m) =>
      FindCommandOf(m, 0);
  }
}
