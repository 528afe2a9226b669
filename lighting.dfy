/**
 * The lighting state of the keyboard and, for every operation of the driver, what it does to
 * that state and which opcodes it hands to the firmware, in order. The driver keeps the state in
 * globals and changes it step by step (see KeyLeds.Keyboard); the functions here are the values
 * those steps compute, and the lemmas here state what the driver promises across several calls.
 */
module Lighting {
  import opened Optional
  import opened Opcodes
  import opened ModeNames

  /** The three independently coloured zones of the keyboard. */
  datatype Region = Left | Center | Right

  /** The region number the driver passes to the firmware. */
  function RegionIndex(r: Region): (i: bv8)
    ensures i < 3
  {
    match r
    case Left => 0
    case Center => 1
    case Right => 2
  }

  /** The region with number `i`, if there is one. */
  function RegionAt(i: bv8): (r: Option<Region>)
    ensures r.Some? <==> i < 3
    ensures r.Some? ==> RegionIndex(r.value) == i
  {
    if i == 0 then Some(Left) else if i == 1 then Some(Center) else if i == 2 then Some(Right) else None
  }

  /** Region numbers and regions convert back and forth without loss. */
  lemma RegionAtIndex(r: Region)
    ensures RegionAt(RegionIndex(r)) == Some(r)
  {
  }

  /**
   * The driver's globals: one packed colour per region (`red << 16 | green << 8 | blue` in an
   * `unsigned int`), the brightness (an `unsigned char`) and the current mode.
   */
  datatype State = State(left: bv32, center: bv32, right: bv32, brightness: bv8, mode: Mode)

  /** Every stored colour is a packed 24-bit value. */
  predicate Valid(s: State)
  {
    s.left < 0x100_0000 && s.center < 0x100_0000 && s.right < 0x100_0000
  }

  function Packed(s: State, r: Region): bv32
  {
    match r
    case Left => s.left
    case Center => s.center
    case Right => s.right
  }

  function WithPacked(s: State, r: Region, c: bv32): (t: State)
    ensures Packed(t, r) == c
    ensures forall o :: o != r ==> Packed(t, o) == Packed(s, o)
    ensures t.brightness == s.brightness && t.mode == s.mode
  {
    match r
    case Left => s.(left := c)
    case Center => s.(center := c)
    case Right => s.(right := c)
  }

  /** The channels (red, green, blue) of a region's stored colour. */
  function ColorOf(s: State, r: Region): (bv8, bv8, bv8)
  {
    Unpack(Packed(s, r))
  }

  /** The opcode that sends a region's stored colour. */
  function StoredColorOpcode(s: State, r: Region): bv32
  {
    ColorOpcode(RegionIndex(r), ColorOf(s, r).0, ColorOf(s, r).1, ColorOf(s, r).2)
  }

  /** The opcodes that re-send the whole stored palette: left, center, right. */
  function PaletteOpcodes(s: State): seq<bv32>
  {
    [StoredColorOpcode(s, Left), StoredColorOpcode(s, Center), StoredColorOpcode(s, Right)]
  }

  /** The compiled-in initial values of the globals: every region blue, full brightness, Custom. */
  const Initial: State := State(0x0000FF, 0x0000FF, 0x0000FF, 255, Custom)

  /** What an operation leaves behind: the new state and the opcodes it sent, in order. */
  datatype Effect = Effect(state: State, sent: seq<bv32>)

  /** The kernel's `clamp_t(unsigned int, x, lo, hi)`, on the values of the operands. */
  function Clamp(x: nat, lo: nat, hi: nat): (r: nat)
    requires lo <= hi
    ensures lo <= r <= hi
    ensures lo <= x <= hi ==> r == x
    ensures x < lo ==> r == lo
    ensures x > hi ==> r == hi
  {
    if x < lo then lo else if x > hi then hi else x
  }

  // ---------------------------------------------------------------------------------------
  // The driver's internal operations

  /**
   * `set_region_color`: an invalid region is ignored; otherwise the region's colour is stored,
   * the mode becomes Custom and one colour opcode is sent.
   */
  function SetRegionColor(s: State, region: bv8, red: bv8, green: bv8, blue: bv8): (e: Effect)
    ensures region >= 3 ==> e == Effect(s, [])
    ensures region < 3 ==>
      && ColorOf(e.state, RegionAt(region).value) == (red, green, blue)
      && (forall o :: o != RegionAt(region).value ==> Packed(e.state, o) == Packed(s, o))
      && e.state.brightness == s.brightness
      && e.state.mode == Custom
      && e.sent == [ColorOpcode(region, red, green, blue)]
    ensures Valid(s) ==> Valid(e.state)
  {
    match RegionAt(region)
    case None => Effect(s, [])
    case Some(r) =>
      Effect(WithPacked(s, r, Pack(red, green, blue)).(mode := Custom), [ColorOpcode(region, red, green, blue)])
  }

  /**
   * `reset_custom_colors`: re-set each region, left to right, to the colour read back out of
   * its slot. The palette and brightness stay as they were, the mode becomes Custom, and the
   * stored palette is sent.
   */
  function ResetCustomColors(s: State): (e: Effect)
    ensures Valid(s) ==> e.state == s.(mode := Custom) && e.sent == PaletteOpcodes(s)
    ensures Valid(s) ==> Valid(e.state)
  {
    var l := SetRegionColor(s, 0, Unpack(s.left).0, Unpack(s.left).1, Unpack(s.left).2);
    var c := SetRegionColor(l.state, 1, Unpack(l.state.center).0, Unpack(l.state.center).1, Unpack(l.state.center).2);
    var r := SetRegionColor(c.state, 2, Unpack(c.state.right).0, Unpack(c.state.right).1, Unpack(c.state.right).2);
    Effect(r.state, l.sent + c.sent + r.sent)
  }

  /**
   * `set_keyboard_brightness`: the clamp to 0..255 never changes an `unsigned char`, so the
   * brightness stored and sent is exactly the argument; colours and mode are untouched.
   */
  function SetKeyboardBrightness(s: State, brightness: bv8): (e: Effect)
    ensures e.state == s.(brightness := brightness)
    ensures e.sent == [BrightnessOpcode(brightness)]
  {
    var level := Clamp(brightness as nat, 0, 255) as bv8;
    Effect(s.(brightness := level), [BrightnessOpcode(level)])
  }

  /**
   * `set_keyboard_mode`: a value of 8 or more is ignored. Otherwise the reset opcode goes first;
   * Custom then re-sends the stored palette and brightness, and any other mode is stored and
   * its table entry sent. Colours and brightness are never changed.
   */
  function SetKeyboardMode(s: State, m: bv8): (e: Effect)
    ensures m >= ModeCount ==> e == Effect(s, [])
    ensures m < ModeCount && Valid(s) ==> e.state == s.(mode := ModeAt(m).value)
    ensures m < ModeCount && m != 1 ==>
      e.state == s.(mode := ModeAt(m).value) && e.sent == [ModeReset, ModeCommand(ModeAt(m).value)]
    ensures m == 1 && Valid(s) ==> e.sent == [ModeReset] + PaletteOpcodes(s) + [BrightnessOpcode(s.brightness)]
    ensures Valid(s) ==> Valid(e.state)
  {
    if m >= ModeCount then Effect(s, [])
    else if m == 1 then
      var restored := ResetCustomColors(s);
      var b := SetKeyboardBrightness(restored.state, restored.state.brightness);
      Effect(b.state, [ModeReset] + restored.sent + b.sent)
    else
      var mode := ModeAt(m).value;
      Effect(s.(mode := mode), [ModeReset, Cmds[m]])
  }

  /** The startup sequence of the module: red, green and blue zones at full brightness. */
  function Startup(s: State): (e: Effect)
    ensures e.state == State(Pack(255, 0, 0), Pack(0, 255, 0), Pack(0, 0, 255), 255, Custom)
    ensures e.sent == [ColorOpcode(0, 255, 0, 0), ColorOpcode(1, 0, 255, 0), ColorOpcode(2, 0, 0, 255), BrightnessOpcode(255)]
    ensures Valid(e.state)
  {
    var l := SetRegionColor(s, 0, 255, 0, 0);
    var c := SetRegionColor(l.state, 1, 0, 255, 0);
    var r := SetRegionColor(c.state, 2, 0, 0, 255);
    var b := SetKeyboardBrightness(r.state, 255);
    Effect(b.state, l.sent + c.sent + r.sent + b.sent)
  }

  // ---------------------------------------------------------------------------------------
  // The attribute handlers. The text a handler parses is given as its parse result: None when
  // `sscanf` did not fill every field, otherwise the `unsigned int`s it filled.

  /**
   * Writing `left`, `center` or `right`: a malformed write changes nothing. Otherwise, when the
   * mode is not Custom, the whole stored palette is re-sent first; then the low bytes of the three
   * numbers become the region's colour and the mode is Custom.
   */
  function WriteRegionColor(s: State, r: Region, parsed: Option<(bv32, bv32, bv32)>): (e: Effect)
    ensures parsed.None? ==> e == Effect(s, [])
    ensures parsed.Some? ==>
      && ColorOf(e.state, r) == (Low8(parsed.value.0), Low8(parsed.value.1), Low8(parsed.value.2))
      && e.state.brightness == s.brightness
      && e.state.mode == Custom
    ensures parsed.Some? && Valid(s) ==>
      && e.state == WithPacked(s, r, Pack(Low8(parsed.value.0), Low8(parsed.value.1), Low8(parsed.value.2))).(mode := Custom)
      && e.sent == (if s.mode != Custom then PaletteOpcodes(s) else [])
                   + [ColorOpcode(RegionIndex(r), Low8(parsed.value.0), Low8(parsed.value.1), Low8(parsed.value.2))]
    ensures Valid(s) ==> Valid(e.state)
  {
    match parsed
    case None => Effect(s, [])
    case Some((red, green, blue)) =>
      var restored := if s.mode != Custom then ResetCustomColors(s) else Effect(s, []);
      RegionAtIndex(r);
      var written := SetRegionColor(restored.state, RegionIndex(r), Low8(red), Low8(green), Low8(blue));
      Effect(written.state, restored.sent + written.sent)
  }

  /** Writing `brightness`: the low byte of the number is stored and sent; nothing else changes. */
  function WriteBrightness(s: State, parsed: Option<bv32>): (e: Effect)
    ensures parsed.None? ==> e == Effect(s, [])
    ensures parsed.Some? ==>
      e.state == s.(brightness := Low8(parsed.value)) && e.sent == [BrightnessOpcode(Low8(parsed.value))]
  {
    match parsed
    case None => Effect(s, [])
    case Some(v) => SetKeyboardBrightness(s, Low8(v))
  }

  /**
   * Writing `mode`: the number is cut to its low byte before the range check, so 9 is ignored
   * but 257 selects Custom.
   */
  function WriteModeInteger(s: State, parsed: Option<bv32>): (e: Effect)
    ensures parsed.None? || Low8(parsed.value) >= ModeCount ==> e == Effect(s, [])
    ensures parsed.Some? && Low8(parsed.value) < ModeCount && Valid(s) ==>
      e.state == s.(mode := ModeAt(Low8(parsed.value)).value)
    ensures parsed.Some? && Low8(parsed.value) < ModeCount && Valid(s) ==>
      e.sent == [ModeReset] + (if e.state.mode == Custom then PaletteOpcodes(s) + [BrightnessOpcode(s.brightness)]
                               else [ModeCommand(e.state.mode)])
    ensures Valid(s) ==> Valid(e.state)
  {
    match parsed
    case None => Effect(s, [])
    case Some(v) => SetKeyboardMode(s, Low8(v))
  }

  /**
   * Writing `modedesc`: fewer than two bytes are refused (the write reports 0 bytes consumed);
   * otherwise the first mode whose name compares equal on the first `size - 1` bytes is
   * selected, if any, and the whole write is consumed.
   */
  function WriteModeDesc(s: State, buf: seq<char>): (r: (Effect, nat))
    ensures |buf| < 2 ==> r == (Effect(s, []), 0)
    ensures |buf| >= 2 ==> r.1 == |buf|
    ensures |buf| >= 2 && FirstMatch(buf, |buf| - 1).None? ==> r.0 == Effect(s, [])
    ensures |buf| >= 2 && FirstMatch(buf, |buf| - 1).Some? && Valid(s) ==>
      r.0.state == s.(mode := r.0.state.mode) && Index(r.0.state.mode) as nat == FirstMatch(buf, |buf| - 1).value
    ensures |buf| >= 2 && FirstMatch(buf, |buf| - 1).Some? && Valid(s) ==>
      r.0.sent == [ModeReset] + (if r.0.state.mode == Custom then PaletteOpcodes(s) + [BrightnessOpcode(s.brightness)]
                                 else [ModeCommand(r.0.state.mode)])
    ensures Valid(s) ==> Valid(r.0.state)
  {
    if |buf| < 2 then (Effect(s, []), 0)
    else match FirstMatch(buf, |buf| - 1)
      case None => (Effect(s, []), |buf|)
      case Some(m) =>
        TableIndexIsMode(m);
        (SetKeyboardMode(s, m as bv8), |buf|)
  }

  /**
   * Reading `left`, `center` or `right`: the three numbers printed, `>> 16`, `(>> 8) & 0xFF`
   * and `& 0xFF` of the stored colour; for a packed colour these are its three channels.
   */
  function ReadRegionColor(s: State, r: Region): (c: (bv32, bv32, bv32))
    ensures Valid(s) ==> c == (ColorOf(s, r).0 as bv32, ColorOf(s, r).1 as bv32, ColorOf(s, r).2 as bv32)
  {
    var p := Packed(s, r);
    (p >> 16, (p >> 8) & 0xFF, p & 0xFF)
  }

  /** Reading `mode`: the enumeration value of the stored mode, always one the `mode` write accepts. */
  function ReadModeInteger(s: State): (v: bv8)
    ensures v < ModeCount && ModeAt(v) == Some(s.mode)
  {
    Index(s.mode)
  }

  /**
   * Reading `modedesc`: the stored mode is always in the table, so the read is never empty,
   * and writing it back selects that same mode.
   */
  function ReadModeDesc(s: State): (d: string)
    ensures |d| >= 2 && d[|d| - 1] == '\n' && d[..|d| - 1] == Names[Index(s.mode)]
    ensures FirstMatch(d, |d| - 1) == Some(Index(s.mode) as nat)
  {
    IndexInTable(s.mode);
    DescSelectsMode(s.mode);
    ModeDesc(Index(s.mode) as nat)
  }

  // ---------------------------------------------------------------------------------------
  // Properties across calls

  /** Writing three numbers to a region and reading it back gives their low bytes. */
  lemma ColorReadBack(s: State, r: Region, red: bv32, green: bv32, blue: bv32)
    requires Valid(s)
    ensures ReadRegionColor(WriteRegionColor(s, r, Some((red, green, blue))).state, r)
         == (red & 0xFF, green & 0xFF, blue & 0xFF)
  {
  }

  /** Selecting Custom twice leaves the state as the first selection did and sends the same opcodes. */
  lemma CustomModeIdempotent(s: State)
    requires Valid(s)
    ensures var once := SetKeyboardMode(s, 1);
            SetKeyboardMode(once.state, 1) == once
  {
  }

  /**
   * A trip through any mode and back to Custom restores the palette and brightness stored before
   * it: they are what the return to Custom sends.
   */
  lemma ExcursionRestoresPalette(s: State, m: bv8)
    requires Valid(s) && m < ModeCount
    ensures SetKeyboardMode(SetKeyboardMode(s, m).state, 1)
         == Effect(s.(mode := Custom), [ModeReset] + PaletteOpcodes(s) + [BrightnessOpcode(s.brightness)])
  {
  }

  /** Reading `mode` and writing the number back changes no stored value. */
  lemma ModeIntegerRoundTrip(s: State)
    requires Valid(s)
    ensures WriteModeInteger(s, Some(ReadModeInteger(s) as bv32)).state == s
  {
  }

  /** Reading `modedesc` and writing the text back changes no stored value. */
  lemma ModeDescRoundTrip(s: State)
    requires Valid(s)
    ensures WriteModeDesc(s, ReadModeDesc(s)).0.state == s
  {
  }

  /**
   * For a write without NUL bytes, the `modedesc` write selects the first mode whose name starts
   * with the written bytes less the last one, and changes nothing when there is none.
   */
  lemma ModeDescByPrefix(s: State, buf: seq<char>)
    requires Valid(s) && |buf| >= 2 && NoNul(buf[..|buf| - 1])
    ensures var t := WriteModeDesc(s, buf).0.state;
      match FirstPrefix(buf[..|buf| - 1])
      case None => t == s
      case Some(m) => t == s.(mode := t.mode) && Index(t.mode) as nat == m
  {
    LookupIsPrefixSearch(buf, |buf| - 1, 0);
    var p := FirstPrefix(buf[..|buf| - 1]);
    if p.Some? {
      TableIndexIsMode(p.value);
    }
  }

  // ---------------------------------------------------------------------------------------
  // Any sequence of attribute writes

  /** One write to one of the driver's writable attributes, given as its parse result. */
  datatype Write =
    | ColorWrite(region: Region, numbers: Option<(bv32, bv32, bv32)>)
    | BrightnessWrite(number: Option<bv32>)
    | ModeWrite(number: Option<bv32>)
    | ModeDescWrite(buf: seq<char>)

  function Apply(s: State, w: Write): Effect
  {
    match w
    case ColorWrite(r, numbers) => WriteRegionColor(s, r, numbers)
    case BrightnessWrite(number) => WriteBrightness(s, number)
    case ModeWrite(number) => WriteModeInteger(s, number)
    case ModeDescWrite(buf) => WriteModeDesc(s, buf).0
  }

  /** The writes applied in order: the final state and everything sent on the way. */
  function Run(s: State, ws: seq<Write>): Effect
    decreases |ws|
  {
    if ws == [] then Effect(s, [])
    else
      var first := Apply(s, ws[0]);
      var rest := Run(first.state, ws[1..]);
      Effect(rest.state, first.sent + rest.sent)
  }

  /** Every opcode in `sent` is one of the four kinds the firmware is sent, well formed. */
  predicate Decodable(sent: seq<bv32>)
  {
    forall i :: 0 <= i < |sent| ==> Decode(sent[i]).Some?
  }

  lemma DecodableConcat(a: seq<bv32>, b: seq<bv32>)
    requires Decodable(a) && Decodable(b)
    ensures Decodable(a + b)
  {
    forall i | 0 <= i < |a + b|
      ensures Decode((a + b)[i]).Some?
    {
      if i < |a| {
        assert (a + b)[i] == a[i];
      } else {
        assert (a + b)[i] == b[i - |a|];
      }
    }
  }

  lemma ColorOpcodeDecodable(region: bv8, red: bv8, green: bv8, blue: bv8)
    requires region < 3
    ensures Decodable([ColorOpcode(region, red, green, blue)])
  {
    DecodeEncode(SetColor(region, red, green, blue));
  }

  lemma PaletteDecodable(s: State)
    ensures Decodable(PaletteOpcodes(s))
  {
    var p := PaletteOpcodes(s);
    forall i | 0 <= i < 3
      ensures Decode(p[i]).Some?
    {
      var r := if i == 0 then Left else if i == 1 then Center else Right;
      assert p[i] == StoredColorOpcode(s, r);
      DecodeEncode(SetColor(RegionIndex(r), ColorOf(s, r).0, ColorOf(s, r).1, ColorOf(s, r).2));
    }
  }

  /** Selecting a mode sends only well-formed opcodes: the table's zero entry for Custom is never sent. */
  lemma ModeTrafficDecodable(s: State, m: bv8)
    requires Valid(s)
    ensures Decodable(SetKeyboardMode(s, m).sent)
  {
    DecodeEncode(ResetMode);
    if m < ModeCount && m != 1 {
      DecodeEncode(SelectMode(ModeAt(m).value));
    } else if m == 1 {
      PaletteDecodable(s);
      DecodeEncode(SetBrightness(s.brightness));
      DecodableConcat([ModeReset], PaletteOpcodes(s));
      DecodableConcat([ModeReset] + PaletteOpcodes(s), [BrightnessOpcode(s.brightness)]);
    }
  }

  /** A write to `left`, `center` or `right` sends only well-formed opcodes. */
  lemma ColorWriteDecodable(s: State, r: Region, numbers: Option<(bv32, bv32, bv32)>)
    requires Valid(s)
    ensures Decodable(WriteRegionColor(s, r, numbers).sent)
  {
    if numbers.Some? {
      var (red, green, blue) := numbers.value;
      var op := ColorOpcode(RegionIndex(r), Low8(red), Low8(green), Low8(blue));
      ColorOpcodeDecodable(RegionIndex(r), Low8(red), Low8(green), Low8(blue));
      if s.mode != Custom {
        PaletteDecodable(s);
        DecodableConcat(PaletteOpcodes(s), [op]);
      }
    }
  }

  /** A write to `modedesc` sends only well-formed opcodes. */
  lemma ModeDescDecodable(s: State, buf: seq<char>)
    requires Valid(s)
    ensures Decodable(WriteModeDesc(s, buf).0.sent)
  {
    if |buf| >= 2 && FirstMatch(buf, |buf| - 1).Some? {
      ModeTrafficDecodable(s, FirstMatch(buf, |buf| - 1).value as bv8);
    }
  }

  lemma ApplyDecodable(s: State, w: Write)
    requires Valid(s)
    ensures Decodable(Apply(s, w).sent)
  {
    match w
    case ColorWrite(r, numbers) =>
      ColorWriteDecodable(s, r, numbers);
    case BrightnessWrite(number) =>
      if number.Some? {
        DecodeEncode(SetBrightness(Low8(number.value)));
      }
    case ModeWrite(number) =>
      if number.Some? {
        ModeTrafficDecodable(s, Low8(number.value));
      }
    case ModeDescWrite(buf) =>
      ModeDescDecodable(s, buf);
  }

  /**
   * Whatever the attributes are sent, from a valid state: every stored colour stays a packed
   * 24-bit value and the firmware only ever receives well-formed opcodes.
   */
  lemma {:induction false} RunInvariant(s: State, ws: seq<Write>)
    requires Valid(s)
    decreases |ws|
    ensures Valid(Run(s, ws).state) && Decodable(Run(s, ws).sent)
  {
    if ws != [] {
      var first := Apply(s, ws[0]);
      ApplyDecodable(s, ws[0]);
      RunInvariant(first.state, ws[1..]);
      DecodableConcat(first.sent, Run(first.state, ws[1..]).sent);
    }
  }
}
