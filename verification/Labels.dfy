/**
 `resolverTypes` of the matches viewer: display labels for the integer codes of
 a multiplayer room (ruleset, team type, win condition, mod type).
 Each kind of code has its own label for codes it does not list.
 */
module Labels {

  datatype Option<T> = None | Some(value: T)

  /** The four kinds of code the caller may ask about. */
  datatype Tag = GameMode | GameType | GameCondition | GameModType

  /** The string the caller passes for each kind. */
  function TagName(t: Tag): string {
    match t
    case GameMode => "gamemode"
    case GameType => "gametype"
    case GameCondition => "gamecondition"
    case GameModType => "gamemodtype"
  }

  /** The strings of the four kinds. */
  const KindNames: set<string> := {"gamemode", "gametype", "gamecondition", "gamemodtype"}

  /** The kind strings are exactly the names of the tags. */
  lemma KindNamesAreTagNames(typeName: string)
    ensures typeName in KindNames <==> exists t :: TagName(t) == typeName
  {
    if typeName in KindNames {
      var t := if typeName == "gamemode" then GameMode
        else if typeName == "gametype" then GameType
        else if typeName == "gamecondition" then GameCondition
        else GameModType;
      assert TagName(t) == typeName;
    }
  }

  /**
   `resolverTypes(type, data)`. The kind arrives as a string (its union type is
   not enforced at run time); any other string yields `null`, here `None`.
   */
  function ResolverTypes(typeName: string, data: int): (r: Option<string>)
    ensures r.None? <==> typeName !in KindNames
  {
    match typeName
    case "gamemode" =>
      Some(match data
        case 0 => "osu"
        case 1 => "taiko"
        case 2 => "fruits"
        case 3 => "mania"
        case _ => "osu")
    case "gametype" =>
      Some(match data
        case 0 => "Head-to-Head"
        case 1 => "Tag Coop"
        case 2 => "Team VS"
        case _ => "Tag Team VS")
    case "gamecondition" =>
      Some(match data
        case 0 => "Score V1"
        case 1 => "Accuracy"
        case 2 => "Combo"
        case _ => "Score V2")
    case "gamemodtype" =>
      Some(match data
        case 0 => "Selected Mods"
        case _ => "Free Mods")
    case _ => None
  }

  // ---------------------------------------------------------------------------
  // Reference table: the listed codes of each kind are 0, 1, ... in order
  // ---------------------------------------------------------------------------

  function ListedLabels(t: Tag): seq<string> {
    match t
    case GameMode => ["osu", "taiko", "fruits", "mania"]
    case GameType => ["Head-to-Head", "Tag Coop", "Team VS"]
    case GameCondition => ["Score V1", "Accuracy", "Combo"]
    case GameModType => ["Selected Mods"]
  }

  function DefaultLabel(t: Tag): string {
    match t
    case GameMode => "osu"
    case GameType => "Tag Team VS"
    case GameCondition => "Score V2"
    case GameModType => "Free Mods"
  }

  predicate Listed(t: Tag, data: int) {
    0 <= data < |ListedLabels(t)|
  }

  /** The label for `data` as the table gives it. */
  function TableLabel(t: Tag, data: int): string {
    if Listed(t, data) then ListedLabels(t)[data] else DefaultLabel(t)
  }

  /** Every declared kind resolves, to the label of the table: the listed label, or that kind's default. */
  lemma ResolverMatchesTable(t: Tag, data: int)
    ensures ResolverTypes(TagName(t), data) == Some(TableLabel(t, data))
  {
  }

  /** Rulesets: osu, taiko, fruits, mania for 0 to 3, and osu for every other code. */
  lemma GameModeLabels(data: int)
    ensures data == 1 ==> ResolverTypes("gamemode", data) == Some("taiko")
    ensures data == 2 ==> ResolverTypes("gamemode", data) == Some("fruits")
    ensures data == 3 ==> ResolverTypes("gamemode", data) == Some("mania")
    ensures data !in {1, 2, 3} ==> ResolverTypes("gamemode", data) == Some("osu")
  {
  }

  /** A code outside a kind's list gets that kind's default label. */
  lemma UnlistedCodesGetDefault(t: Tag, data: int)
    requires !Listed(t, data)
    ensures ResolverTypes(TagName(t), data) == Some(DefaultLabel(t))
  {
  }

  /**
   Within one kind, two different codes share a label only when both show the
   kind's default: the listed labels are distinct, and only the ruleset list
   repeats its default (code 0, osu).
   */
  lemma {:induction false} LabelsCollideOnlyOnDefault(t: Tag, d1: int, d2: int)
    requires d1 != d2
    requires ResolverTypes(TagName(t), d1) == ResolverTypes(TagName(t), d2)
    ensures ResolverTypes(TagName(t), d1) == Some(DefaultLabel(t))
    ensures t != GameMode ==> !Listed(t, d1) && !Listed(t, d2)
  {
    ResolverMatchesTable(t, d1);
    ResolverMatchesTable(t, d2);
    var ls := ListedLabels(t);
    assert forall i, j :: 0 <= i < j < |ls| ==> ls[i] != ls[j];
    assert forall i :: 0 <= i < |ls| && ls[i] == DefaultLabel(t) ==> t == GameMode && i == 0;
  }
}
