/**
 * The textual names of the lighting modes and the lookup behind the `modedesc` attribute:
 * a write selects the first mode, in enumeration order, whose name compares equal to the
 * written buffer under `strncmp(name, buf, size - 1)`.
 */
module ModeNames {
  import opened Optional
  import opened Opcodes

  /** The name of each mode, indexed by enumeration value. */
  const Names: seq<string> := ["random", "custom", "breathe", "cycle", "wave", "dance", "tempo", "flash"]

  predicate NoNul(s: seq<char>)
  {
    forall i :: 0 <= i < |s| ==> s[i] != '\0'
  }

  /** The character at position `i` of a C string held in `s`: past its end there is the terminator. */
  function CharAt(s: seq<char>, i: nat): char
  {
    if i < |s| then s[i] else '\0'
  }

  /** No terminator in `s` before position `i`. */
  predicate Unterminated(s: seq<char>, i: nat)
  {
    forall j :: 0 <= j < i ==> CharAt(s, j) != '\0'
  }

  /** The characters of `s` and `t` agree on the first `n` positions that come before the terminator of `s`. */
  predicate AgreeUpTo(s: seq<char>, t: seq<char>, n: nat)
  {
    forall i :: 0 <= i < n && Unterminated(s, i) ==> CharAt(s, i) == CharAt(t, i)
  }

  /**
   * `strncmp(s, t, n) == 0`: the comparison walks the first `n` positions and stops, successfully,
   * at a terminator the two strings share.
   */
  function StrnEq(s: seq<char>, t: seq<char>, n: nat): (r: bool)
    decreases n
    ensures r <==> AgreeUpTo(s, t, n)
  {
    if n == 0 then true
    else if CharAt(s, 0) != CharAt(t, 0) then
      assert Unterminated(s, 0);
      false
    else if CharAt(s, 0) == '\0' then
      assert forall i :: 0 < i ==> !Unterminated(s, i) by {
        forall i | 0 < i ensures !Unterminated(s, i) { assert CharAt(s, 0) == '\0'; }
      }
      true
    else
      AgreeStep(s, t, n);
      StrnEq(s[1..], t[1..], n - 1)
  }

  /** Dropping a shared non-terminator character shifts the agreement by one position. */
  lemma AgreeStep(s: seq<char>, t: seq<char>, n: nat)
    requires n > 0 && CharAt(s, 0) == CharAt(t, 0) != '\0'
    ensures AgreeUpTo(s, t, n) <==> AgreeUpTo(s[1..], t[1..], n - 1)
  {
    forall i: nat
      ensures CharAt(s[1..], i) == CharAt(s, i + 1) && CharAt(t[1..], i) == CharAt(t, i + 1)
      ensures Unterminated(s[1..], i) <==> Unterminated(s, i + 1)
    {
      if Unterminated(s, i + 1) {
        forall j | 0 <= j < i ensures CharAt(s[1..], j) != '\0' {
          assert CharAt(s[1..], j) == CharAt(s, j + 1);
        }
      }
      if Unterminated(s[1..], i) {
        forall j | 0 <= j < i + 1 ensures CharAt(s, j) != '\0' {
          if j > 0 { assert CharAt(s, j) == CharAt(s[1..], j - 1); }
        }
      }
    }
    if AgreeUpTo(s, t, n) {
      forall i | 0 <= i < n - 1 && Unterminated(s[1..], i)
        ensures CharAt(s[1..], i) == CharAt(t[1..], i)
      {
        assert Unterminated(s, i + 1);
      }
    }
    if AgreeUpTo(s[1..], t[1..], n - 1) {
      forall i | 0 <= i < n && Unterminated(s, i)
        ensures CharAt(s, i) == CharAt(t, i)
      {
        if i > 0 {
          assert Unterminated(s[1..], i - 1);
        }
      }
    }
  }

  /**
   * For a buffer with no NUL among the compared bytes, `strncmp(name, buf, n) == 0` holds exactly
   * when those `n` bytes are a prefix of the name.
   */
  lemma {:induction false} PrefixRule(name: seq<char>, buf: seq<char>, n: nat)
    requires NoNul(name)
    requires n <= |buf| && NoNul(buf[..n])
    ensures StrnEq(name, buf, n) <==> n <= |name| && buf[..n] == name[..n]
  {
    if n == 0 {
    } else if |name| == 0 {
      assert buf[..n][0] != '\0';
    } else {
      assert buf[0] == buf[..n][0];
      if name[0] == buf[0] {
        assert buf[1..][..n - 1] == buf[..n][1..];
        assert NoNul(name[1..]);
        PrefixRule(name[1..], buf[1..], n - 1);
        assert buf[..n] == [buf[0]] + buf[1..][..n - 1];
        if n <= |name| {
          assert name[..n] == [name[0]] + name[1..][..n - 1];
        }
      } else if n <= |name| {
        assert buf[..n][0] != name[..n][0];
      }
    }
  }

  /** `strncmp(Names[m], buf, n) == 0`. */
  predicate Matches(buf: seq<char>, n: nat, m: nat)
    requires m < |Names|
  {
    StrnEq(Names[m], buf, n)
  }

  /** The loop of the `modedesc` write from enumeration value `m` on: the first name that matches. */
  function FirstMatchFrom(buf: seq<char>, n: nat, m: nat): (r: Option<nat>)
    requires m <= |Names|
    decreases |Names| - m
    ensures r.Some? ==> m <= r.value < |Names| && Matches(buf, n, r.value)
    ensures forall j :: m <= j < (if r.Some? then r.value else |Names|) ==> !Matches(buf, n, j)
  {
    if m == |Names| then None
    else if StrnEq(Names[m], buf, n) then Some(m)
    else FirstMatchFrom(buf, n, m + 1)
  }

  function FirstMatch(buf: seq<char>, n: nat): Option<nat>
  {
    FirstMatchFrom(buf, n, 0)
  }

  /** The lowest index whose name matches, and only it, is the one the lookup selects. */
  lemma FirstMatchIs(buf: seq<char>, n: nat, m: nat)
    requires m < |Names| && Matches(buf, n, m)
    requires forall j :: 0 <= j < m ==> !Matches(buf, n, j)
    ensures FirstMatch(buf, n) == Some(m)
  {
  }

  predicate IsPrefix(p: seq<char>, s: seq<char>)
  {
    |p| <= |s| && s[..|p|] == p
  }

  /** The first name, from enumeration value `m` on, that starts with `p`. */
  function FirstPrefixFrom(p: seq<char>, m: nat): (r: Option<nat>)
    requires m <= |Names|
    decreases |Names| - m
    ensures r.Some? ==> m <= r.value < |Names| && IsPrefix(p, Names[r.value])
    ensures forall j :: m <= j < (if r.Some? then r.value else |Names|) ==> !IsPrefix(p, Names[j])
  {
    if m == |Names| then None
    else if IsPrefix(p, Names[m]) then Some(m)
    else FirstPrefixFrom(p, m + 1)
  }

  function FirstPrefix(p: seq<char>): (r: Option<nat>)
    ensures r.Some? ==> r.value < |Names|
  {
    FirstPrefixFrom(p, 0)
  }

  /** On bytes without NUL, the `strncmp` loop is the search for the first name they start. */
  lemma {:induction false} LookupIsPrefixSearch(buf: seq<char>, n: nat, m: nat)
    requires m <= |Names| && n <= |buf| && NoNul(buf[..n])
    decreases |Names| - m
    ensures FirstMatchFrom(buf, n, m) == FirstPrefixFrom(buf[..n], m)
  {
    if m < |Names| {
      PrefixRule(Names[m], buf, n);
      LookupIsPrefixSearch(buf, n, m + 1);
    }
  }

  /**
   * The `modedesc` read on the stored enumeration value: the mode's name and a newline, or
   * nothing at all for a value outside the table.
   */
  function ModeDesc(value: nat): (s: string)
    ensures s == [] <==> value >= |Names|
    ensures s != [] ==> s[|s| - 1] == '\n' && s[..|s| - 1] == Names[value]
  {
    if value >= |Names| then "" else Names[value] + "\n"
  }

  /** No name is a prefix of an earlier one, so a name (with its newline) selects its own mode. */
  lemma DescSelectsMode(m: Mode)
    ensures var d := ModeDesc(Index(m) as nat); |d| >= 2 && FirstMatch(d, |d| - 1) == Some(Index(m) as nat)
  {
    IndexInTable(m);
    var i := Index(m) as nat;
    NameFacts(i);
    var d := ModeDesc(i);
    NameSelects(d, |d| - 1, i);
  }

  /** The enumeration value of a mode is a position in the name table. */
  lemma IndexInTable(m: Mode)
    ensures Index(m) as nat < |Names|
  {
    match m
    case RandomColor =>
    case Custom =>
    case Breathe =>
    case Cycle =>
    case Wave =>
    case Dance =>
    case Tempo =>
    case Flash =>
  }

  /** A position in the name table is a valid enumeration value. */
  lemma TableIndexIsMode(i: nat)
    requires i < |Names|
    ensures ModeAt(i as bv8).Some? && Index(ModeAt(i as bv8).value) as nat == i
  {
    if i == 0 {
    } else if i == 1 {
    } else if i == 2 {
    } else if i == 3 {
    } else if i == 4 {
    } else if i == 5 {
    } else if i == 6 {
    } else {
    }
  }

  /** Every name is a non-empty C string without an embedded terminator. */
  lemma NameFacts(i: nat)
    requires i < |Names|
    ensures |Names[i]| >= 1 && NoNul(Names[i])
  {
    if i == 0 {
    } else if i == 1 {
    } else if i == 2 {
    } else if i == 3 {
    } else if i == 4 {
    } else if i == 5 {
    } else if i == 6 {
    } else {
    }
  }

  /**
   * The name at position `i` followed by anything selects `i`: no name is a prefix of an
   * earlier one.
   */
  lemma NameSelects(d: seq<char>, n: nat, i: nat)
    requires i < |Names| && n <= |d| && d[..n] == Names[i]
    ensures FirstMatch(d, n) == Some(i)
  {
    NameFacts(i);
    forall j | 0 <= j <= i
      ensures Matches(d, n, j) <==> j == i
    {
      NameFacts(j);
      PrefixRule(Names[j], d, n);
    }
    FirstMatchIs(d, n, i);
  }

  /** Writing `"cycle\n"` selects Cycle. */
  lemma SelectsCycle()
    ensures FirstMatch("cycle\n", 5) == Some(3)
  {
    NameSelects("cycle\n", 5, 3);
  }

  /** Writing `"c\n"` selects Custom: the first name in enumeration order that starts with c. */
  lemma ShortPrefixSelectsFirst()
    ensures FirstMatch("c\n", 1) == Some(1)
  {
    forall j | 0 <= j < |Names|
      ensures Matches("c\n", 1, j) <==> j == 1 || j == 3
    {
      NameFacts(j);
      PrefixRule(Names[j], "c\n", 1);
    }
    FirstMatchIs("c\n", 1, 1);
  }

  /** Writing `"cycles\n"` selects nothing: the compared bytes are longer than the name cycle. */
  lemma LongerInputSelectsNothing()
    ensures FirstMatch("cycles\n", 6) == None
  {
    var p := "cycles\n";
    assert p[..6] == "cycles";
    forall j | 0 <= j < |Names|
      ensures !Matches(p, 6, j)
    {
      NameFacts(j);
      PrefixRule(Names[j], p, 6);
    }
  }
}
