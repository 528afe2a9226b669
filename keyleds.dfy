/**
 * The keyboard-LED driver's globals and the functions that change them, as a class. Each call
 * of the firmware's SET_KB_LED method appends its opcode to `sent`; every caller ignores the
 * call's status, so nothing else of it is kept. Every method is proved to compute exactly the
 * effect the Lighting module gives for it, from which the promises across calls follow.
 */
module KeyLeds {
  import opened Optional
  import opened Opcodes
  import opened ModeNames
  import L = Lighting

  class Keyboard {
    var left: bv32
    var center: bv32
    var right: bv32
    var brightness: bv8
    var mode: Mode
    /** The opcodes handed to the firmware so far, oldest first. */
    var sent: seq<bv32>

    /** The lighting state held in the globals. */
    function Snapshot(): L.State
      reads this
    {
      L.State(left, center, right, brightness, mode)
    }

    ghost predicate Valid()
      reads this
    {
      L.Valid(Snapshot())
    }

    /** The globals as compiled in, before the module's startup code runs. */
    constructor ()
      ensures Valid() && Snapshot() == L.Initial && sent == []
    {
      left, center, right := 0x0000FF, 0x0000FF, 0x0000FF;
      brightness := 255;
      mode := Custom;
      sent := [];
    }

    /** `wmi_evaluate_wmbb_method(SET_KB_LED, cmd, NULL)`: hand one opcode to the firmware. */
    method Send(cmd: bv32)
      modifies this`sent
      ensures sent == old(sent) + [cmd]
    {
      sent := sent + [cmd];
    }

    /** `set_region_color`. */
    method SetRegionColor(region: bv8, red: bv8, green: bv8, blue: bv8)
      requires Valid()
      modifies this
      ensures Valid()
      ensures Snapshot() == L.SetRegionColor(old(Snapshot()), region, red, green, blue).state
      ensures sent == old(sent) + L.SetRegionColor(old(Snapshot()), region, red, green, blue).sent
    {
      if region >= 3 {
        return;
      }
      var cmd := ColorOpcode(region, red, green, blue);
      ghost var after := L.WithPacked(Snapshot(), L.RegionAt(region).value, Pack(red, green, blue)).(mode := Custom);
      if region == 0 {
        left := Pack(red, green, blue);
      } else if region == 1 {
        center := Pack(red, green, blue);
      } else {
        right := Pack(red, green, blue);
      }
      mode := Custom;
      assert Snapshot() == after;
      Send(cmd);
    }

    /** `reset_custom_colors`. */
    method ResetCustomColors()
      requires Valid()
      modifies this
      ensures Valid()
      ensures Snapshot() == L.ResetCustomColors(old(Snapshot())).state
      ensures sent == old(sent) + L.ResetCustomColors(old(Snapshot())).sent
    {
      SetRegionColor(0, Unpack(left).0, Unpack(left).1, Unpack(left).2);
      SetRegionColor(1, Unpack(center).0, Unpack(center).1, Unpack(center).2);
      SetRegionColor(2, Unpack(right).0, Unpack(right).1, Unpack(right).2);
    }

    /** `set_keyboard_brightness`. */
    method SetKeyboardBrightness(level: bv8)
      requires Valid()
      modifies this
      ensures Valid()
      ensures Snapshot() == L.SetKeyboardBrightness(old(Snapshot()), level).state
      ensures sent == old(sent) + L.SetKeyboardBrightness(old(Snapshot()), level).sent
    {
      var clamped := L.Clamp(level as nat, 0, 255) as bv8;
      brightness := clamped;
      Send(0xF400_0000 | (clamped as bv32));
    }

    /** `set_keyboard_mode`. */
    method SetKeyboardMode(m: bv8)
      requires Valid()
      modifies this
      ensures Valid()
      ensures Snapshot() == L.SetKeyboardMode(old(Snapshot()), m).state
      ensures sent == old(sent) + L.SetKeyboardMode(old(Snapshot()), m).sent
    {
      if m >= ModeCount {
        return;
      }
      Send(ModeReset);
      if m == 1 {
        ResetCustomColors();
        SetKeyboardBrightness(brightness);
        return;
      }
      mode := ModeAt(m).value;
      Send(Cmds[m]);
    }

    /** The startup code of the module: a colour per region, then full brightness. */
    method ApplyStartupDefaults()
      requires Valid()
      modifies this
      ensures Valid()
      ensures Snapshot() == L.Startup(old(Snapshot())).state
      ensures sent == old(sent) + L.Startup(old(Snapshot())).sent
    {
      SetRegionColor(0, 255, 0, 0);
      SetRegionColor(1, 0, 255, 0);
      SetRegionColor(2, 0, 0, 255);
      SetKeyboardBrightness(255);
    }

    /** `set_region_color_left`, `set_region_color_center` and `set_region_color_right`. */
    method WriteRegionColor(r: L.Region, parsed: Option<(bv32, bv32, bv32)>)
      requires Valid()
      modifies this
      ensures Valid()
      ensures Snapshot() == L.WriteRegionColor(old(Snapshot()), r, parsed).state
      ensures sent == old(sent) + L.WriteRegionColor(old(Snapshot()), r, parsed).sent
    {
      if parsed.Some? {
        var (red, green, blue) := parsed.value;
        ghost var restored := if mode != Custom then L.ResetCustomColors(Snapshot()) else L.Effect(Snapshot(), []);
        if mode != Custom {
          ResetCustomColors();
        }
        assert Snapshot() == restored.state && sent == old(sent) + restored.sent;
        SetRegionColor(L.RegionIndex(r), Low8(red), Low8(green), Low8(blue));
      }
    }

    /** `set_brightness`. */
    method WriteBrightness(parsed: Option<bv32>)
      requires Valid()
      modifies this
      ensures Valid()
      ensures Snapshot() == L.WriteBrightness(old(Snapshot()), parsed).state
      ensures sent == old(sent) + L.WriteBrightness(old(Snapshot()), parsed).sent
    {
      if parsed.Some? {
        SetKeyboardBrightness(Low8(parsed.value));
      }
    }

    /** `set_mode_integer`. */
    method WriteModeInteger(parsed: Option<bv32>)
      requires Valid()
      modifies this
      ensures Valid()
      ensures Snapshot() == L.WriteModeInteger(old(Snapshot()), parsed).state
      ensures sent == old(sent) + L.WriteModeInteger(old(Snapshot()), parsed).sent
    {
      if parsed.Some? {
        SetKeyboardMode(Low8(parsed.value));
      }
    }

    /** `set_mode_desc`: try the names in enumeration order and select the first that matches. */
    method WriteModeDesc(buf: seq<char>) returns (written: nat)
      requires Valid()
      modifies this
      ensures Valid()
      ensures Snapshot() == L.WriteModeDesc(old(Snapshot()), buf).0.state
      ensures sent == old(sent) + L.WriteModeDesc(old(Snapshot()), buf).0.sent
      ensures written == L.WriteModeDesc(old(Snapshot()), buf).1
    {
      if |buf| < 2 {
        return 0;
      }
      var n := |buf| - 1;
      var m := 0;
      while m < |Names|
        invariant 0 <= m <= |Names|
        invariant forall j :: 0 <= j < m ==> !Matches(buf, n, j)
        invariant Snapshot() == old(Snapshot()) && sent == old(sent)
      {
        if StrnEq(Names[m], buf, n) {
          FirstMatchIs(buf, n, m);
          SetKeyboardMode(m as bv8);
          break;
        }
        m := m + 1;
      }
      return |buf|;
    }
  }
}
