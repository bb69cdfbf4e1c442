/** The five node actions a patch element can request (NodeAction.cs). */
module NodeActions {
  import opened Util

  datatype NodeAction = Merge | Create | Remove | MergeAll | RemoveAll

  /** The members in declaration order. */
  const AllActions: seq<NodeAction> := [Merge, Create, Remove, MergeAll, RemoveAll]

  /** The member names exactly as declared. */
  function Name(a: NodeAction): string
  {
    match a
    case Merge => "Merge"
    case Create => "Create"
    case Remove => "Remove"
    case MergeAll => "MergeAll"
    case RemoveAll => "RemoveAll"
  }

  /** Case-insensitive parse of a member name (Enum.TryParse with ignoreCase): the
      value parses to `a` exactly when it equals `a`'s name ignoring case, and to
      nothing when it names no member. */
  function Parse(s: string): (r: Option<NodeAction>)
    ensures forall a :: r == Some(a) <==> EqualsIgnoreCase(s, Name(a))
    ensures r.None? <==> forall a :: !EqualsIgnoreCase(s, Name(a))
  {
    NamesDistinct(s);
    if EqualsIgnoreCase(s, "Merge") then Some(Merge)
    else if EqualsIgnoreCase(s, "Create") then Some(Create)
    else if EqualsIgnoreCase(s, "Remove") then Some(Remove)
    else if EqualsIgnoreCase(s, "MergeAll") then Some(MergeAll)
    else if EqualsIgnoreCase(s, "RemoveAll") then Some(RemoveAll)
    else None
  }

  /** No value equals two different member names ignoring case. */
  lemma NamesDistinct(s: string)
    ensures forall a, b :: EqualsIgnoreCase(s, Name(a)) && EqualsIgnoreCase(s, Name(b)) ==> a == b
  {
    if |s| > 0 {
      assert EqualsIgnoreCase(s, Name(Create)) ==> LowerChar(s[0]) == 'c';
      assert EqualsIgnoreCase(s, Name(Remove)) ==> LowerChar(s[0]) == 'r';
    }
  }

  /** The enumeration is closed: it has exactly the five members, each listed once,
      and a value equal to a member's name in any letter case parses to that member. */
  lemma ClosedSet(a: NodeAction, s: string)
    requires EqualsIgnoreCase(s, Name(a))
    ensures a in AllActions && |AllActions| == 5
    ensures forall i, j :: 0 <= i < j < |AllActions| ==> AllActions[i] != AllActions[j]
    ensures Parse(s) == Some(a)
  {
  }
}
