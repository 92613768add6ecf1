/**
 The two enums the Android bridge declares between the editor and its host
 app, with their decoders: `LogLevel.valueOf(int)`, partial, and
 `MediaType.getEnum(String)`, total with `OTHER` as the fallback. Both walk
 the constants in declaration order and return the first match.
 */
module GutenbergBridge {
  import opened Wrappers

  /** The first of `values`, in order, that satisfies `matches`. */
  function FirstMatch<T>(values: seq<T>, matches: T -> bool): (r: Option<T>)
    ensures r.Some? ==> r.value in values && matches(r.value)
    ensures r.None? <==> forall v :: v in values ==> !matches(v)
    ensures r.Some? ==> exists i :: 0 <= i < |values| && values[i] == r.value && forall j :: 0 <= j < i ==> !matches(values[j])
    decreases |values|
  {
    if |values| == 0 then None
    else if matches(values[0]) then Some(values[0])
    else FirstMatch(values[1..], matches)
  }

  // ---------------------------------------------------------------- LogLevel

  /** Console log levels, as React Native's console polyfill numbers them. */
  datatype LogLevel = Trace | Info | Warn | Error {

    /** The id each constant is declared with. */
    function Id(): int {
      match this
      case Trace => 0
      case Info => 1
      case Warn => 2
      case Error => 3
    }
  }

  /** `LogLevel.values()`: every constant, in declaration order. */
  const LogLevels: seq<LogLevel> := [Trace, Info, Warn, Error]

  /** `LogLevel.valueOf(int)`: the level declared with `id`, or `None` (Java's
      `null`) when there is none. */
  function LogLevelValueOf(id: int): (r: Option<LogLevel>)
    ensures r.Some? ==> r.value.Id() == id
    ensures r.None? <==> !(0 <= id <= 3)
  {
    FirstMatch(LogLevels, (level: LogLevel) => level.Id() == id)
  }

  /** `values()` lists every level once, and the ids grow strictly in
      declaration order, so they are pairwise distinct. */
  lemma LogLevelIdsIncreasing()
    ensures forall level: LogLevel :: level in LogLevels
    ensures forall i, j :: 0 <= i < j < |LogLevels| ==> LogLevels[i].Id() < LogLevels[j].Id()
    ensures LogLevels[0].Id() == 0 && LogLevels[|LogLevels| - 1].Id() == 3
  {
    forall level: LogLevel ensures level in LogLevels {
      assert LogLevels[level.Id()] == level;
    }
  }

  /** Decoding a level's id gives the level back. */
  lemma LogLevelRoundTrip(level: LogLevel)
    ensures LogLevelValueOf(level.Id()) == Some(level)
  {
  }

  /** `valueOf` inverts `id` on every input: it yields `level` exactly for
      `level`'s own id. */
  lemma LogLevelValueOfInverse(id: int, level: LogLevel)
    ensures LogLevelValueOf(id) == Some(level) <==> id == level.Id()
  {
    if id == level.Id() {
      LogLevelRoundTrip(level);
    }
  }

  // --------------------------------------------------------------- MediaType

  /** Kinds of media the editor asks the host to pick or upload. */
  datatype MediaType = Image | Video | Media | Audio | Other {

    /** The `name` string each constant is declared with (not Java's
        `Enum.name()`, which would be the upper-case constant name). */
    function Name(): string {
      match this
      case Image => "image"
      case Video => "video"
      case Media => "media"
      case Audio => "audio"
      case Other => "other"
    }
  }

  /** `MediaType.values()`: every constant, in declaration order. */
  const MediaTypes: seq<MediaType> := [Image, Video, Media, Audio, Other]

  /** The declared names. */
  const MediaTypeNames: set<string> := {"image", "video", "media", "audio", "other"}

  /** `MediaType.getEnum(String)`: the constant whose name `equals` `value`
      exactly, or `Other` when there is none; `None` is Java's `null`, which
      `equals` never matches. */
  function MediaTypeOf(value: Option<string>): (r: MediaType)
    ensures value.Some? && value.value in MediaTypeNames ==> r.Name() == value.value
    ensures value.None? || value.value !in MediaTypeNames ==> r == Other
  {
    FirstMatch(MediaTypes, (t: MediaType) => Some(t.Name()) == value).GetOr(Other)
  }

  /** The five names are pairwise distinct and are exactly `MediaTypeNames`. */
  lemma MediaTypeNamesDistinct(s: MediaType, t: MediaType)
    ensures s.Name() == t.Name() <==> s == t
    ensures s.Name() in MediaTypeNames
  {
  }

  /** Decoding a type's name gives the type back. */
  lemma MediaTypeRoundTrip(t: MediaType)
    ensures MediaTypeOf(Some(t.Name())) == t
  {
    MediaTypeNamesDistinct(t, MediaTypeOf(Some(t.Name())));
  }

  /** Which inputs decode to which type: a type other than `Other` comes only
      from its own name; `Other` comes from "other" and from every string
      outside `MediaTypeNames`, and from `null`. */
  lemma MediaTypeOfInverse(value: Option<string>, t: MediaType)
    ensures t != Other ==> (MediaTypeOf(value) == t <==> value == Some(t.Name()))
    ensures MediaTypeOf(value) == Other <==> value.None? || value.value == "other" || value.value !in MediaTypeNames
  {
    if value.Some? && value.value in MediaTypeNames {
      var r := MediaTypeOf(value);
      MediaTypeNamesDistinct(r, t);
      MediaTypeNamesDistinct(r, Other);
    }
  }

  /** Matching is exact and case-sensitive, and `getEnum` is not injective:
      "Image", `null`, an unknown name and "other" all decode to `Other`. */
  lemma MediaTypeOfFallbacks()
    ensures MediaTypeOf(Some("Image")) == Other
    ensures MediaTypeOf(None) == Other
    ensures MediaTypeOf(Some("gif")) == MediaTypeOf(Some("other")) == Other
  {
    MediaTypeRoundTrip(Other);
  }
}
