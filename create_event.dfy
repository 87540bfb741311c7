/** The create-event form (src/presentation/pages/CreateEvent.tsx and its twin CreateEvent.jsx,
    whose schema, defaults and time formatting are the same): the field schema as a list of
    issues, the defaults, the number input of the spots field, and the "HH:mm" time string.
    Instants are integer milliseconds; the schema's lower date bound is the instant the module
    was loaded, a parameter here. */
module CreateEventForm {
  import opened Wrappers
  import opened Decimal

  /** The values the form submits. `gameMode` is the selected radio value, None when unset. */
  datatype FormValues = FormValues(
    eventName: string,
    dateTime: int,
    location: string,
    maxSpots: Option<int>,
    description: string,
    gameMode: Option<string>)

  /** One failed rule of the schema. */
  datatype Issue =
    | NameTooShort
    | NameTooLong
    | DateInPast
    | LocationRequired
    | TooFewSpots
    | DescriptionRequired
    | GameModeRequired
    | GameModeNotInEnum

  const MinNameLength := 3
  const MaxNameLength := 24
  const GameModes: seq<string> := ["counter", "matchmaking", "none"]

  /** The message the schema attaches to each rule (an out-of-enum game mode gets the
      validation library's own text, which is not part of this model). */
  function Message(issue: Issue): Option<string> {
    match issue
    case NameTooShort => Some("Event name must be at least 3 characters")
    case NameTooLong => Some("Event name must be less than 24 characters")
    case DateInPast => Some("Date cannot be in the past")
    case LocationRequired => Some("Location is required")
    case TooFewSpots => Some("Must have at least 1 spot")
    case DescriptionRequired => Some("Description is required")
    case GameModeRequired => Some("Please select a game mode")
    case GameModeNotInEnum => None
  }

  /** The rules in the order the schema lists its fields. */
  const SchemaOrder: seq<Issue> := [NameTooShort, NameTooLong, DateInPast, LocationRequired, TooFewSpots,
                                    DescriptionRequired, GameModeRequired, GameModeNotInEnum]

  /** Whether the values break the rule; `builtAt` is the instant the schema was built, and
      `min` and `max` are inclusive bounds. */
  predicate Broken(issue: Issue, v: FormValues, builtAt: int) {
    match issue
    case NameTooShort => |v.eventName| < MinNameLength
    case NameTooLong => |v.eventName| > MaxNameLength
    case DateInPast => v.dateTime < builtAt
    case LocationRequired => |v.location| < 1
    case TooFewSpots => v.maxSpots.Some? && v.maxSpots.value < 1
    case DescriptionRequired => |v.description| < 1
    case GameModeRequired => v.gameMode.None?
    case GameModeNotInEnum => v.gameMode.Some? && v.gameMode.value !in GameModes
  }

  /** The broken rules among `rules`, in their order. */
  function BrokenAmong(rules: seq<Issue>, v: FormValues, builtAt: int): (r: seq<Issue>)
    ensures forall i :: i in r <==> i in rules && Broken(i, v, builtAt)
  {
    if rules == [] then []
    else (if Broken(rules[0], v, builtAt) then [rules[0]] else []) + BrokenAmong(rules[1..], v, builtAt)
  }

  /** The issues the schema reports, field by field. */
  function Issues(v: FormValues, builtAt: int): seq<Issue> {
    BrokenAmong(SchemaOrder, v, builtAt)
  }

  predicate IsValid(v: FormValues, builtAt: int) {
    Issues(v, builtAt) == []
  }

  /** Each rule is reported exactly when it is broken. */
  lemma IssuesAreExact(v: FormValues, builtAt: int)
    ensures forall i :: i in Issues(v, builtAt) <==> Broken(i, v, builtAt)
  {
    forall i: Issue ensures i in SchemaOrder {
      match i
      case NameTooShort => assert SchemaOrder[0] == i;
      case NameTooLong => assert SchemaOrder[1] == i;
      case DateInPast => assert SchemaOrder[2] == i;
      case LocationRequired => assert SchemaOrder[3] == i;
      case TooFewSpots => assert SchemaOrder[4] == i;
      case DescriptionRequired => assert SchemaOrder[5] == i;
      case GameModeRequired => assert SchemaOrder[6] == i;
      case GameModeNotInEnum => assert SchemaOrder[7] == i;
    }
  }

  /** The schema accepts exactly: a name of 3 to 24 characters, both ends included, a date
      not before the load instant, a location and a description, no spot limit or at least
      one spot, and one of the three game modes. */
  lemma ValidIff(v: FormValues, builtAt: int)
    ensures IsValid(v, builtAt) <==>
              && 3 <= |v.eventName| <= 24
              && v.dateTime >= builtAt
              && v.location != ""
              && (v.maxSpots.None? || v.maxSpots.value >= 1)
              && v.description != ""
              && v.gameMode.Some? && v.gameMode.value in {"counter", "matchmaking", "none"}
  {
    IssuesAreExact(v, builtAt);
    if !IsValid(v, builtAt) {
      assert Issues(v, builtAt)[0] in Issues(v, builtAt);
    } else {
      assert !Broken(NameTooShort, v, builtAt) && !Broken(NameTooLong, v, builtAt);
      assert !Broken(DateInPast, v, builtAt) && !Broken(LocationRequired, v, builtAt);
      assert !Broken(TooFewSpots, v, builtAt) && !Broken(DescriptionRequired, v, builtAt);
      assert !Broken(GameModeRequired, v, builtAt) && !Broken(GameModeNotInEnum, v, builtAt);
    }
  }

  /** The form's initial values: empty texts, no spot limit, no game mode but "none", and
      the instant the form was opened as the date. */
  function Defaults(openedAt: int): (v: FormValues)
    ensures v.gameMode == Some("none") && v.maxSpots.None?
  {
    FormValues("", openedAt, "", None, "", Some("none"))
  }

  /** The untouched form is refused for its name, location and description, and for its date
      only when it is opened before the schema was built. */
  lemma DefaultsIssues(openedAt: int, builtAt: int)
    ensures forall i :: i in Issues(Defaults(openedAt), builtAt) <==>
              i in {NameTooShort, LocationRequired, DescriptionRequired} || (i == DateInPast && openedAt < builtAt)
  {
    IssuesAreExact(Defaults(openedAt), builtAt);
  }

  /** The spots input: an empty field is no limit, otherwise the number typed. A number input
      hands over either "" or the text of a number; whole numbers only here. */
  function MaxSpotsFromInput(text: string): (r: Option<int>)
    requires text == "" || ParseInt(text).Some?
    ensures text == "" <==> r.None?
  {
    if text == "" then None else ParseInt(text)
  }

  /** Typing the decimal text of a number gives that number. */
  lemma MaxSpotsInputRoundTrip(n: int)
    ensures ParseInt(IntToString(n)) == Some(n) && MaxSpotsFromInput(IntToString(n)) == Some(n)
  {
    IntRoundTrip(n);
  }

  const MillisPerMinute := 60000
  const MinutesPerDay := 1440

  /** The minute of the local day of an instant, `offset` being the local zone's offset from
      UTC in minutes; floor division, so instants before 1970 fall on the right day. */
  function MinuteOfDay(t: int, offset: int): (m: int)
    ensures 0 <= m < MinutesPerDay
  {
    (t / MillisPerMinute + offset) % MinutesPerDay
  }

  /** `format(date, 'HH:mm')`: the zero-padded 24-hour local hour and minute. */
  function FormatTime(t: int, offset: int): (s: string)
    ensures |s| == 5 && s[2] == ':'
  {
    var m := MinuteOfDay(t, offset);
    Pad2(m / 60) + ":" + Pad2(m % 60)
  }

  /** Reads "HH:mm" back as the minute of the day; None unless two digits, a colon and two
      digits form an hour below 24 and a minute below 60. */
  function ParseTime(s: string): (r: Option<int>)
    ensures r.Some? ==> 0 <= r.value < MinutesPerDay
  {
    if |s| != 5 || s[2] != ':' || !IsDigit(s[0]) || !IsDigit(s[1]) || !IsDigit(s[3]) || !IsDigit(s[4]) then None
    else
      var h := (s[0] as int - '0' as int) * 10 + (s[1] as int - '0' as int);
      var m := (s[3] as int - '0' as int) * 10 + (s[4] as int - '0' as int);
      if h < 24 && m < 60 then Some(h * 60 + m) else None
  }

  /** The stored time names the chosen instant's local hour and minute. */
  lemma FormatTimeRoundTrip(t: int, offset: int)
    ensures ParseTime(FormatTime(t, offset)) == Some(MinuteOfDay(t, offset))
  {
    var m := MinuteOfDay(t, offset);
    var s := FormatTime(t, offset);
    assert s[..2] == Pad2(m / 60) && s[3..] == Pad2(m % 60);
  }

  /** Under one zone offset, the instant a whole day later formats to the same clock time.
      Across a daylight-saving change the two instants have different offsets and this
      does not apply. */
  lemma FormatTimeDaily(t: int, offset: int)
    ensures FormatTime(t + MinutesPerDay * MillisPerMinute, offset) == FormatTime(t, offset)
  {
    var q := t / MillisPerMinute;
    assert (t + 86400000) / 60000 == q + 1440;
    assert MinuteOfDay(t + MinutesPerDay * MillisPerMinute, offset) == (q + offset + 1440) % 1440;
    assert (q + offset + 1440) % 1440 == (q + offset) % 1440;
  }
}
