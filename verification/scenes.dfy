/** The scene catalog `SCENES`: three practice scenes for each proficiency
    level, looked up by the level's name. */
module Scenes {

  /** The proficiency levels the setup form offers, in the catalog's order. */
  datatype Level = Beginner | Intermediate | Advanced

  /** The catalog key of a level. */
  function LevelName(level: Level): (name: string)
    ensures name != []
  {
    match level
    case Beginner => "Beginner"
    case Intermediate => "Intermediate"
    case Advanced => "Advanced"
  }

  const BeginnerScenes: seq<string> := [
    "You\U{2019}re at a market buying fruit.",
    "You\U{2019}re greeting a neighbor in your new town.",
    "You\U{2019}re asking for directions to a park."
  ]

  const IntermediateScenes: seq<string> := [
    "You\U{2019}re ordering a meal at a restaurant.",
    "You\U{2019}re shopping for clothes in a store.",
    "You\U{2019}re booking a hotel room over the phone."
  ]

  const AdvancedScenes: seq<string> := [
    "You\U{2019}re negotiating a business deal.",
    "You\U{2019}re discussing a news article with a friend.",
    "You\U{2019}re giving a presentation at work."
  ]

  /** `SCENES`, keyed by the exact level names. */
  const Catalog: map<string, seq<string>> := map[
    "Beginner" := BeginnerScenes,
    "Intermediate" := IntermediateScenes,
    "Advanced" := AdvancedScenes
  ]

  /** `SCENES.get(level, SCENES["Beginner"])`: an exact, case-sensitive key
      lookup that falls back to the Beginner scenes. */
  function ScenesFor(level: string): (scenes: seq<string>)
    ensures |scenes| == 3
    ensures level in Catalog ==> scenes == Catalog[level]
    ensures level !in Catalog ==> scenes == BeginnerScenes
  {
    if level in Catalog then Catalog[level] else Catalog["Beginner"]
  }

  /** The catalog has one entry per level and nothing else. */
  lemma CatalogKeys()
    ensures forall level: Level :: LevelName(level) in Catalog
    ensures forall key :: key in Catalog <==> key == "Beginner" || key == "Intermediate" || key == "Advanced"
  {
    forall level: Level
      ensures LevelName(level) in Catalog
    {
      match level
      case Beginner =>
      case Intermediate =>
      case Advanced =>
    }
  }

  /** The three scene lists differ from one another: their first scenes
      already differ after the common "You’re ". */
  lemma ListsDiffer()
    ensures BeginnerScenes != IntermediateScenes
    ensures BeginnerScenes != AdvancedScenes
    ensures IntermediateScenes != AdvancedScenes
  {
    assert BeginnerScenes[0][7] == 'a';
    assert IntermediateScenes[0][7] == 'o';
    assert AdvancedScenes[0][7] == 'n';
  }

  /** Each level's name selects that level's scenes. */
  lemma ScenesOfLevel(level: Level)
    ensures ScenesFor(LevelName(level))
      == match level
         case Beginner => BeginnerScenes
         case Intermediate => IntermediateScenes
         case Advanced => AdvancedScenes
  {
  }

  /** The Advanced (and the Intermediate) scenes are offered exactly for the
      exact key; the Beginner scenes for every other string, the empty level
      of a fresh session included. */
  lemma LookupIff(level: string)
    ensures ScenesFor(level) == AdvancedScenes <==> level == "Advanced"
    ensures ScenesFor(level) == IntermediateScenes <==> level == "Intermediate"
    ensures ScenesFor(level) == BeginnerScenes <==> level != "Advanced" && level != "Intermediate"
  {
    ListsDiffer();
  }

  /** The lookup does not fold case: a lower-case level name is not a key. */
  lemma LookupIsCaseSensitive(level: string)
    requires level == "advanced" || level == "intermediate"
    ensures ScenesFor(level) == BeginnerScenes
  {
    assert level[0] != 'A' && level[0] != 'I';
  }
}
