/** Where a crafted element goes relative to its reference node (CraftMode.cs). */
module CraftModes {
  import opened Util

  datatype CraftMode = After | Before | Append

  /** The members in declaration order. */
  const AllModes: seq<CraftMode> := [After, Before, Append]

  /** The member names exactly as declared. */
  function Name(m: CraftMode): string
  {
    match m
    case After => "After"
    case Before => "Before"
    case Append => "Append"
  }

  /** Case-insensitive parse of a member name: the value parses to `m` exactly when
      it equals `m`'s name ignoring case, and to nothing when it names no member. */
  function Parse(s: string): (r: Option<CraftMode>)
    ensures forall m :: r == Some(m) <==> EqualsIgnoreCase(s, Name(m))
    ensures r.None? <==> forall m :: !EqualsIgnoreCase(s, Name(m))
  {
    NamesDistinct(s);
    if EqualsIgnoreCase(s, "After") then Some(After)
    else if EqualsIgnoreCase(s, "Before") then Some(Before)
    else if EqualsIgnoreCase(s, "Append") then Some(Append)
    else None
  }

  /** No value equals two different member names ignoring case. */
  lemma NamesDistinct(s: string)
    ensures forall m, n :: EqualsIgnoreCase(s, Name(m)) && EqualsIgnoreCase(s, Name(n)) ==> m == n
  {
    if |s| > 0 {
      assert EqualsIgnoreCase(s, Name(Before)) ==> LowerChar(s[0]) == 'b';
      assert EqualsIgnoreCase(s, Name(Append)) ==> LowerChar(s[0]) == 'a';
    }
  }

  /** The enumeration is closed: exactly three members, each listed once, and a
      value equal to a member's name in any letter case parses to that member. */
  lemma ClosedSet(m: CraftMode, s: string)
    requires EqualsIgnoreCase(s, Name(m))
    ensures m in AllModes && |AllModes| == 3
    ensures forall i, j :: 0 <= i < j < |AllModes| ==> AllModes[i] != AllModes[j]
    ensures Parse(s) == Some(m)
  {
  }

  /** A value equal to a member name ignoring case has no `>` in it, so a directive
      `<mode>><xpath>` splits right after the mode. */
  lemma NoSeparatorInName(s: string, m: CraftMode)
    requires EqualsIgnoreCase(s, Name(m))
    ensures '>' !in s
  {
    forall i | 0 <= i < |s| ensures s[i] != '>' {
      assert LowerChar(s[i]) == LowerChar(Name(m)[i]);
      assert 'A' <= Name(m)[i] <= 'Z' || 'a' <= Name(m)[i] <= 'z';
    }
  }
}
