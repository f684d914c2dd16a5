/**
 * The calendar widget's iCalendar reader (`js/calendar.js`): physical lines
 * are split and unfolded, each logical line is split into a field name,
 * `;`-separated parameters and a value, `VEVENT` blocks are accumulated into
 * event records, and the events of all feeds are merged and sorted by start.
 *
 * The reader loosely follows RFC 5545 (line folding, section 3.1; property
 * parameters, section 3.2; TEXT escapes, section 3.3.11; DATE and DATE-TIME,
 * sections 3.3.4 and 3.3.5) and departs from it where the code does:
 * continuation lines are trimmed of all surrounding white space, only a
 * lower-case `\n` is unescaped, the backslash escape is undone last, and date
 * components are never range-checked.
 */
module Calendar {
  import opened Wrappers
  import Strings
  import Numerals
  import Sorting
  import Lists

  /** A calendar subscription as kept in the settings store. */
  datatype Feed = Feed(name: string, url: string)

  /**
   * The arguments passed to the JavaScript `Date` constructor (or to
   * `Date.UTC`): `None` stands for `NaN`, and the month is zero-based.
   */
  datatype DateTime =
    | LocalDate(year: Option<int>, month: Option<int>, day: Option<int>)
    | LocalTime(year: Option<int>, month: Option<int>, day: Option<int>,
                hour: Option<int>, minute: Option<int>, second: Option<int>)
    | UtcTime(year: Option<int>, month: Option<int>, day: Option<int>,
              hour: Option<int>, minute: Option<int>, second: Option<int>)

  /** An event record; a field is `None` while the block has not set it. */
  datatype Event = Event(
    feedName: string,
    summary: Option<string>,
    description: Option<string>,
    location: Option<string>,
    start: Option<DateTime>,
    end: Option<DateTime>,
    isAllDay: Option<bool>,
    uid: Option<string>,
    url: Option<string>)

  /** The record opened by `BEGIN:VEVENT`: only the feed name is set. */
  function NewEvent(feedName: string): Event {
    Event(feedName, None, None, None, None, None, None, None, None)
  }

  /** An event is kept only with a non-empty summary and a start (a `Date` is always truthy). */
  predicate Emittable(e: Event) {
    e.summary.Some? && e.summary.value != [] && e.start.Some?
  }

  // ---------------------------------------------------------------------------
  // Physical and logical lines
  // ---------------------------------------------------------------------------

  /** `text.split(/\r\n|\n|\r/)`. */
  function SplitLines(s: string): (lines: seq<string>)
    ensures |lines| >= 1
    ensures forall i :: 0 <= i < |lines| ==> '\n' !in lines[i] && '\r' !in lines[i]
  {
    if s == [] then [[]]
    else if s[0] == '\n' then [[]] + SplitLines(s[1..])
    else if s[0] == '\r' then
      if |s| > 1 && s[1] == '\n' then [[]] + SplitLines(s[2..]) else [[]] + SplitLines(s[1..])
    else
      var rest := SplitLines(s[1..]);
      [[s[0]] + rest[0]] + rest[1..]
  }

  /** For text with `\n` line ends only, splitting loses nothing: joining with `\n` gives it back. */
  lemma {:induction false} SplitLinesJoin(s: string)
    requires '\r' !in s
    ensures Strings.Join(SplitLines(s), "\n") == s
  {
    if s != [] {
      SplitLinesJoin(s[1..]);
      var rest := SplitLines(s[1..]);
      if s[0] == '\n' {
        assert s == "\n" + s[1..];
      } else if |rest| == 1 {
        assert s == [s[0]] + rest[0];
      } else {
        var lines := [[s[0]] + rest[0]] + rest[1..];
        assert SplitLines(s) == lines;
        assert Strings.Join(rest, "\n") == rest[0] + "\n" + Strings.Join(rest[1..], "\n");
        assert lines[1..] == rest[1..];
        assert Strings.Join(lines, "\n") == ([s[0]] + rest[0]) + "\n" + Strings.Join(rest[1..], "\n");
        assert s == [s[0]] + s[1..];
      }
    }
  }

  /** A physical line that continues the previous one starts with a space or a tab. */
  predicate IsContinuation(line: string) {
    line != [] && (line[0] == ' ' || line[0] == '\t')
  }

  /** The lines that begin a logical line: every line that is not a continuation. */
  function LogicalStarts(lines: seq<string>): nat {
    if lines == [] then 0
    else (if IsContinuation(lines[0]) then 0 else 1) + LogicalStarts(lines[1..])
  }

  /**
   * Line unfolding: each line is trimmed, and every following line that starts
   * with a space or a tab is trimmed and appended to it.  The first line opens
   * a logical line whatever it starts with.
   */
  function Unfold(lines: seq<string>): seq<string> {
    if lines == [] then [] else UnfoldFrom(Strings.Trim(lines[0]), lines[1..])
  }

  /** Unfolding the lines `rest` that follow the logical line `current` gathered so far. */
  function UnfoldFrom(current: string, rest: seq<string>): seq<string>
    decreases |rest|
  {
    if rest == [] then [current]
    else if IsContinuation(rest[0]) then UnfoldFrom(current + Strings.Trim(rest[0]), rest[1..])
    else [current] + UnfoldFrom(Strings.Trim(rest[0]), rest[1..])
  }

  /** Unfolding yields one logical line per physical line that is not a continuation (the first always counts). */
  lemma UnfoldCount(lines: seq<string>)
    ensures |Unfold(lines)| == (if lines == [] then 0 else 1 + LogicalStarts(lines[1..]))
  {
    if lines != [] {
      UnfoldFromCount(Strings.Trim(lines[0]), lines[1..]);
    }
  }

  lemma {:induction false} UnfoldFromCount(current: string, rest: seq<string>)
    ensures |UnfoldFrom(current, rest)| == 1 + LogicalStarts(rest)
    decreases |rest|
  {
    if rest != [] {
      if IsContinuation(rest[0]) {
        UnfoldFromCount(current + Strings.Trim(rest[0]), rest[1..]);
      } else {
        UnfoldFromCount(Strings.Trim(rest[0]), rest[1..]);
      }
    }
  }

  /** Unfolding never drops text: the logical lines hold the trimmed physical lines, in order. */
  lemma {:induction false} UnfoldFromText(current: string, rest: seq<string>)
    ensures Concat(UnfoldFrom(current, rest)) == current + Concat(TrimAll(rest))
    decreases |rest|
  {
    if rest != [] {
      var t := Strings.Trim(rest[0]);
      assert TrimAll(rest) == [t] + TrimAll(rest[1..]);
      ConcatCons(t, TrimAll(rest[1..]));
      if IsContinuation(rest[0]) {
        UnfoldFromText(current + t, rest[1..]);
        ConcatAssoc(current, t, Concat(TrimAll(rest[1..])));
      } else {
        UnfoldFromText(t, rest[1..]);
        ConcatCons(current, UnfoldFrom(t, rest[1..]));
      }
    }
  }

  function TrimAll(lines: seq<string>): (r: seq<string>)
    ensures |r| == |lines|
  {
    if lines == [] then [] else [Strings.Trim(lines[0])] + TrimAll(lines[1..])
  }

  /** The strings one after another. */
  function Concat(parts: seq<string>): string {
    if parts == [] then [] else parts[0] + Concat(parts[1..])
  }

  lemma ConcatCons(x: string, parts: seq<string>)
    ensures Concat([x] + parts) == x + Concat(parts)
  {
    assert ([x] + parts)[1..] == parts;
  }

  /**
   * Folding round trip: a line `a` continued on the next physical line by a
   * space or tab and `b` unfolds exactly like the single line `a + b`.
   */
  lemma FoldedLineUnfolds(a: string, c: char, b: string, rest: seq<string>)
    requires c == ' ' || c == '\t'
    requires a != [] && !Strings.IsJsSpace(a[0]) && !Strings.IsJsSpace(a[|a| - 1])
    requires b == [] || (!Strings.IsJsSpace(b[0]) && !Strings.IsJsSpace(b[|b| - 1]))
    ensures Unfold([a, [c] + b] + rest) == Unfold([a + b] + rest)
  {
    FoldedTrims(a, c, b);
    JoinedUnfolds(a, [c] + b, b, rest);
  }

  /** The unfolding steps of a folded line, given what trimming does to its pieces. */
  lemma JoinedUnfolds(a: string, line: string, b: string, rest: seq<string>)
    requires IsContinuation(line)
    requires Strings.Trim(line) == b && Strings.Trim(a) == a && Strings.Trim(a + b) == a + b
    ensures Unfold([a, line] + rest) == Unfold([a + b] + rest)
  {
    PairCons(a, line, rest);
    UnfoldCons(a, [line] + rest);
    UnfoldFromContinuation(a, line, rest);
    UnfoldCons(a + b, rest);
  }

  lemma FoldedTrims(a: string, c: char, b: string)
    requires c == ' ' || c == '\t'
    requires a != [] && !Strings.IsJsSpace(a[0]) && !Strings.IsJsSpace(a[|a| - 1])
    requires b == [] || (!Strings.IsJsSpace(b[0]) && !Strings.IsJsSpace(b[|b| - 1]))
    ensures Strings.Trim([c] + b) == b && Strings.Trim(a) == a && Strings.Trim(a + b) == a + b
  {
    Strings.TrimLeadingSpace(c, b);
    Strings.TrimOfTrimmed(b);
    Strings.TrimOfConcat(a, b);
  }

  lemma UnfoldCons(x: string, rest: seq<string>)
    ensures Unfold([x] + rest) == UnfoldFrom(Strings.Trim(x), rest)
  {
    assert ([x] + rest)[0] == x && ([x] + rest)[1..] == rest;
  }

  lemma UnfoldFromContinuation(current: string, line: string, rest: seq<string>)
    requires IsContinuation(line)
    ensures UnfoldFrom(current, [line] + rest) == UnfoldFrom(current + Strings.Trim(line), rest)
  {
    assert ([line] + rest)[0] == line && ([line] + rest)[1..] == rest;
  }

  lemma PairCons<X>(x: X, y: X, rest: seq<X>)
    ensures [x, y] + rest == [x] + ([y] + rest)
  {
  }

  lemma ConcatAssoc<X>(a: seq<X>, b: seq<X>, c: seq<X>)
    ensures a + (b + c) == (a + b) + c
  {
  }

  // ---------------------------------------------------------------------------
  // Field lines
  // ---------------------------------------------------------------------------

  /** A content line split into its name, parameters and value. */
  datatype FieldLine = FieldLine(name: string, params: map<string, string>, value: string)

  /** `const [key, value] = param.split('=')`, kept only when both are non-empty. */
  function ParamPair(param: string): (r: Option<(string, string)>)
    ensures r.Some? ==> r.value.0 != [] && r.value.1 != [] && '=' !in r.value.0 && '=' !in r.value.1
  {
    var pieces := Strings.Split(param, '=');
    if pieces[0] != [] && |pieces| > 1 && pieces[1] != [] then Some((pieces[0], pieces[1])) else None
  }

  /** Adds the pairs left to right, so a later pair overrides an earlier one. */
  function AddParams(params: map<string, string>, pieces: seq<string>): map<string, string>
    decreases |pieces|
  {
    if pieces == [] then params
    else
      var next := match ParamPair(pieces[0])
        case Some((k, v)) => params[k := v]
        case None => params;
      AddParams(next, pieces[1..])
  }

  /** The parameter text between the field name and the colon, split on `;`. */
  function ParseParams(text: string): map<string, string> {
    AddParams(map[], Strings.Split(text, ';'))
  }

  /**
   * Splits a logical line at its first `:`; when a `;` comes before that colon,
   * the text between them holds parameters.  A line without a colon, or with
   * an empty field name, yields nothing.  (The first `;` of the line lies
   * before the first colon exactly when the text before that colon has one.)
   */
  function ParseLine(line: string): (r: Option<FieldLine>)
    ensures r.None? <==> (':' !in line || line[0] == ':' || line[0] == ';')
    ensures r.Some? ==> r.value.name != [] && ':' !in r.value.name && ';' !in r.value.name
    ensures r.Some? ==> (Strings.StartsWith(line, r.value.name)
                         && r.value.value == line[Strings.IndexOfChar(line, ':') + 1..])
    ensures r.Some? && ';' !in line[..Strings.IndexOfChar(line, ':')] ==> r.value.params == map[]
  {
    var colon := Strings.IndexOfChar(line, ':');
    if colon <= 0 then None
    else
      var head := line[..colon];
      assert head[0] == line[0];
      var semicolon := Strings.IndexOfChar(head, ';');
      if semicolon == 0 then None
      else if semicolon > 0 then
        assert head[..semicolon] == line[..semicolon];
        Some(FieldLine(head[..semicolon], ParseParams(head[semicolon + 1..]), line[colon + 1..]))
      else Some(FieldLine(head, map[], line[colon + 1..]))
  }

  /** A line read as the text before its first colon, and the value after it. */
  lemma ParseLineAtColon(head: string, value: string)
    requires head != [] && ':' !in head
    ensures ParseLine(head + ":" + value)
         == var semicolon := Strings.IndexOfChar(head, ';');
            if semicolon == 0 then None
            else if semicolon > 0 then Some(FieldLine(head[..semicolon], ParseParams(head[semicolon + 1..]), value))
            else Some(FieldLine(head, map[], value))
  {
    var line := head + ":" + value;
    Strings.IndexOfCharAt(head, ':', value);
    assert line[..|head|] == head;
    assert line[|head| + 1..] == value;
  }

  /** A plain `NAME:value` line parses back to its name and value with no parameters. */
  lemma ParseLinePlain(name: string, value: string)
    requires name != [] && ':' !in name && ';' !in name
    ensures ParseLine(name + ":" + value) == Some(FieldLine(name, map[], value))
  {
    ParseLineAtColon(name, value);
  }

  /** `NAME;KEY=VAL:value` parses back to its name, the single parameter and its value. */
  lemma ParseLineWithParam(name: string, key: string, val: string, value: string)
    requires name != [] && ':' !in name && ';' !in name
    requires key != [] && val != []
    requires ':' !in key && ';' !in key && '=' !in key
    requires ':' !in val && ';' !in val && '=' !in val
    ensures ParseLine(name + ";" + (key + "=") + val + (":" + value))
         == Some(FieldLine(name, map[key := val], value))
  {
    var paramText := key + "=" + val;
    var head := name + ";" + paramText;
    assert ':' !in head;
    ParseLineAtColon(head, value);
    Strings.IndexOfCharAt(name, ';', paramText);
    assert head[..|name|] == name;
    assert head[|name| + 1..] == paramText;
    assert ParseLine(head + ":" + value) == Some(FieldLine(name, ParseParams(paramText), value));
    ParseParamsSingle(key, val);
    assert head + ":" + value == name + ";" + (key + "=") + val + (":" + value) by {
      FiveParts(name, ";", key + "=", val, ":" + value);
      ConcatAssoc(head, ":", value);
    }
  }

  lemma FiveParts<X>(a: seq<X>, b: seq<X>, c: seq<X>, d: seq<X>, e: seq<X>)
    ensures a + b + c + d + e == (a + b + (c + d)) + e
  {
  }

  /** A single `KEY=VAL` parameter text reads as that one parameter. */
  lemma ParseParamsSingle(key: string, val: string)
    requires key != [] && val != []
    requires ';' !in key && '=' !in key && ';' !in val && '=' !in val
    ensures ParseParams(key + "=" + val) == map[key := val]
  {
    var paramText := key + "=" + val;
    assert ';' !in paramText;
    SplitNoSeparator(paramText, ';');
    SplitPair(key, val);
    assert ParamPair(paramText) == Some((key, val));
    assert AddParams(map[], [paramText]) == AddParams(map[key := val], []);
  }

  /** Adding the parameter pieces in two parts is adding them all at once. */
  lemma {:induction false} AddParamsAppend(params: map<string, string>, a: seq<string>, b: seq<string>)
    ensures AddParams(params, a + b) == AddParams(AddParams(params, a), b)
    decreases |a|
  {
    if a != [] {
      var next := match ParamPair(a[0])
        case Some((k, v)) => params[k := v]
        case None => params;
      assert (a + b)[0] == a[0];
      assert (a + b)[1..] == a[1..] + b;
      assert AddParams(params, a + b) == AddParams(next, a[1..] + b);
      assert AddParams(params, a) == AddParams(next, a[1..]);
      AddParamsAppend(next, a[1..], b);
    } else {
      assert a + b == b;
    }
  }

  /** A piece that is not a proper `KEY=VALUE` pair adds nothing, wherever it stands. */
  lemma DroppedPiece(params: map<string, string>, a: seq<string>, p: string, b: seq<string>)
    requires ParamPair(p).None?
    ensures AddParams(params, a + [p] + b) == AddParams(params, a + b)
  {
    AddParamsAppend(params, a + [p], b);
    AddParamsAppend(params, a, [p]);
    AddParamsAppend(params, a, b);
    assert AddParams(AddParams(params, a), [p]) == AddParams(AddParams(params, a), []);
  }

  /** A pair with an empty key or an empty value is not a proper pair. */
  lemma EmptyPartDropped(key: string, val: string)
    requires '=' !in key && '=' !in val && (key == [] || val == [])
    ensures ParamPair(key + "=" + val).None?
  {
    SplitPair(key, val);
  }

  /** A piece without `=` is not a proper pair. */
  lemma NoEqualsDropped(p: string)
    requires '=' !in p
    ensures ParamPair(p).None?
  {
    SplitNoSeparator(p, '=');
  }

  lemma {:induction false} SplitNoSeparator(s: string, sep: char)
    requires sep !in s
    ensures Strings.Split(s, sep) == [s]
  {
    if s != [] {
      SplitNoSeparator(s[1..], sep);
      assert s == [s[0]] + s[1..];
    }
  }

  lemma {:induction false} SplitPair(key: string, val: string)
    requires '=' !in key && '=' !in val
    ensures Strings.Split(key + "=" + val, '=') == [key, val]
  {
    if key == [] {
      SplitNoSeparator(val, '=');
      assert ("=" + val)[1..] == val;
    } else {
      SplitPair(key[1..], val);
      assert (key + "=" + val)[1..] == key[1..] + "=" + val;
      assert [key[0]] + key[1..] == key;
    }
  }

  // ---------------------------------------------------------------------------
  // Values
  // ---------------------------------------------------------------------------

  /**
   * Undoes the TEXT escapes `\n`, `\,`, `\;` and `\\`, one global replace
   * after another in that order; empty input gives the empty string.
   */
  function Unescape(text: string): string {
    if text == [] then []
    else
      var a := Strings.ReplaceAll(text, "\\n", "\n");
      var b := Strings.ReplaceAll(a, "\\,", ",");
      var c := Strings.ReplaceAll(b, "\\;", ";");
      Strings.ReplaceAll(c, "\\\\", "\\")
  }

  /** Text without a backslash comes back unchanged. */
  lemma UnescapeNoBackslash(text: string)
    requires '\\' !in text
    ensures Unescape(text) == text
  {
    if text != [] {
      Strings.ReplaceAllAbsent(text, "\\n", "\n");
      Strings.ReplaceAllAbsent(text, "\\,", ",");
      Strings.ReplaceAllAbsent(text, "\\;", ";");
      Strings.ReplaceAllAbsent(text, "\\\\", "\\");
    }
  }

  /** Unescaping never makes text longer. */
  lemma UnescapeShrinks(text: string)
    ensures |Unescape(text)| <= |text|
  {
    if text != [] {
      var a := Strings.ReplaceAll(text, "\\n", "\n");
      var b := Strings.ReplaceAll(a, "\\,", ",");
      var c := Strings.ReplaceAll(b, "\\;", ";");
      Strings.ReplaceAllShrinks(text, "\\n", "\n");
      Strings.ReplaceAllShrinks(a, "\\,", ",");
      Strings.ReplaceAllShrinks(b, "\\;", ";");
      Strings.ReplaceAllShrinks(c, "\\\\", "\\");
    }
  }

  /** A line terminator, which `.` in a regular expression does not match. */
  predicate IsLineTerminator(c: char) {
    c == '\n' || c == '\r' || c == '\U{2028}' || c == '\U{2029}'
  }

  /** Where a match of `/;TZID=.*?:/` starting at `i` ends, if one does. */
  function TzidMatchEnd(s: string, i: nat): (r: Option<nat>)
    ensures r.Some? ==> i < r.value <= |s| && Strings.OccursAt(s, ";TZID=", i)
  {
    if !Strings.OccursAt(s, ";TZID=", i) then None
    else
      var rest := s[i + 6..];
      var c := Strings.IndexOfChar(rest, ':');
      if c >= 0 && forall k :: 0 <= k < c ==> !IsLineTerminator(rest[k]) then Some(i + 6 + c + 1)
      else None
  }

  function RemoveTzidFrom(s: string, i: nat): string
    decreases |s| - i
  {
    if i >= |s| then s
    else match TzidMatchEnd(s, i)
      case Some(e) => s[..i] + s[e..]
      case None => RemoveTzidFrom(s, i + 1)
  }

  /** `s.replace(/;TZID=.*?:/, '')`: removes the leftmost `;TZID=…:` fragment. */
  function RemoveTzid(s: string): string {
    RemoveTzidFrom(s, 0)
  }

  /** A value with no `;TZID=` fragment is left as it is. */
  lemma {:induction false} RemoveTzidAbsent(s: string, i: nat)
    requires forall k: nat :: !Strings.OccursAt(s, ";TZID=", k)
    ensures RemoveTzidFrom(s, i) == s
    decreases |s| - i
  {
    if i < |s| {
      RemoveTzidAbsent(s, i + 1);
    }
  }

  /** `str.substring(i, j)` for `i <= j`: both ends are clamped to the length. */
  function Sub(s: string, i: nat, j: nat): string
    requires i <= j
  {
    var a := if i < |s| then i else |s|;
    var b := if j < |s| then j else |s|;
    s[a..b]
  }

  /** `month - 1` for the zero-based month; `NaN - 1` is `NaN`. */
  function MonthIndex(month: Option<int>): Option<int> {
    match month
    case Some(m) => Some(m - 1)
    case None => None
  }

  predicate HasValueDate(params: map<string, string>) {
    "VALUE" in params && params["VALUE"] == "DATE"
  }

  /** `parseInt(clean.substring(i, j))`: one numeric column of a DATE or DATE-TIME value. */
  function Column(clean: string, i: nat, j: nat): Option<int>
    requires i <= j
  {
    Numerals.ParseInt(Sub(clean, i, j))
  }

  /**
   * A DATE (`YYYYMMDD`) or DATE-TIME (`YYYYMMDDTHHMMSS[Z]`) value as `Date`
   * constructor arguments.  `VALUE=DATE` or an 8-character value gives a local
   * date; otherwise a trailing `Z` gives UTC and anything else local time.
   */
  function ParseDateTime(value: string, params: map<string, string>): (r: DateTime)
    ensures r.LocalDate? <==> HasValueDate(params) || |RemoveTzid(value)| == 8
    ensures r.UtcTime? <==> !r.LocalDate? && Strings.EndsWith(RemoveTzid(value), "Z")
  {
    var clean := RemoveTzid(value);
    var year := Column(clean, 0, 4);
    var month := MonthIndex(Column(clean, 4, 6));
    var day := Column(clean, 6, 8);
    if HasValueDate(params) || |clean| == 8 then LocalDate(year, month, day)
    else
      var hour := Column(clean, 9, 11);
      var minute := Column(clean, 11, 13);
      var second := Column(clean, 13, 15);
      if Strings.EndsWith(clean, "Z") then UtcTime(year, month, day, hour, minute, second)
      else LocalTime(year, month, day, hour, minute, second)
  }

  /** A value without `;` has no `;TZID=` fragment to remove. */
  lemma NoTzidWithoutSemicolon(s: string)
    requires ';' !in s
    ensures RemoveTzid(s) == s
  {
    forall k: nat ensures !Strings.OccursAt(s, ";TZID=", k) {
      if k + 6 <= |s| {
        assert s[k..k + 6][0] == s[k];
      }
    }
    RemoveTzidAbsent(s, 0);
  }

  lemma ColumnValue(clean: string, i: nat, j: nat, v: int)
    requires i < j <= |clean| && Numerals.ParseInt(clean[i..j]) == Some(v)
    ensures Column(clean, i, j) == Some(v)
  {
    assert Sub(clean, i, j) == clean[i..j];
  }

  lemma DateShape(value: string, params: map<string, string>)
    requires RemoveTzid(value) == value && (HasValueDate(params) || |value| == 8)
    ensures ParseDateTime(value, params)
         == LocalDate(Column(value, 0, 4), MonthIndex(Column(value, 4, 6)), Column(value, 6, 8))
  {
  }

  lemma DateTimeShape(value: string, params: map<string, string>)
    requires RemoveTzid(value) == value && !HasValueDate(params) && |value| > 8
    ensures Strings.EndsWith(value, "Z") ==> (
              ParseDateTime(value, params)
              == UtcTime(Column(value, 0, 4), MonthIndex(Column(value, 4, 6)), Column(value, 6, 8),
                         Column(value, 9, 11), Column(value, 11, 13), Column(value, 13, 15)))
    ensures !Strings.EndsWith(value, "Z") ==> (
              ParseDateTime(value, params)
              == LocalTime(Column(value, 0, 4), MonthIndex(Column(value, 4, 6)), Column(value, 6, 8),
                           Column(value, 9, 11), Column(value, 11, 13), Column(value, 13, 15)))
  {
  }

  /**
   * A DATE value `YYYYMMDD` (or any value under `VALUE=DATE`) is read by
   * columns as a local date, whatever follows the eighth character.  Nothing
   * bounds the month or the day: `20241340` gives month index 12 and day 40.
   */
  lemma ParseDate(value: string, params: map<string, string>, y: int, m: int, d: int)
    requires 8 <= |value| && ';' !in value && (|value| == 8 || HasValueDate(params))
    requires Numerals.ParseInt(value[0..4]) == Some(y)
    requires Numerals.ParseInt(value[4..6]) == Some(m)
    requires Numerals.ParseInt(value[6..8]) == Some(d)
    ensures ParseDateTime(value, params) == LocalDate(Some(y), Some(m - 1), Some(d))
  {
    NoTzidWithoutSemicolon(value);
    DateShape(value, params);
    DateColumns(value, y, m, d);
    MonthOf(Column(value, 4, 6), m);
  }

  /** The date columns of a value read as given numerals. */
  lemma DateColumns(value: string, y: int, mo: int, d: int)
    requires 8 <= |value|
    requires Numerals.ParseInt(value[0..4]) == Some(y)
    requires Numerals.ParseInt(value[4..6]) == Some(mo)
    requires Numerals.ParseInt(value[6..8]) == Some(d)
    ensures Column(value, 0, 4) == Some(y) && Column(value, 4, 6) == Some(mo)
    ensures Column(value, 6, 8) == Some(d)
  {
    ColumnValue(value, 0, 4, y);
    ColumnValue(value, 4, 6, mo);
    ColumnValue(value, 6, 8, d);
  }

  lemma MonthOf(month: Option<int>, mo: int)
    requires month == Some(mo)
    ensures MonthIndex(month) == Some(mo - 1)
  {
  }

  /** The time columns of a value read as given numerals. */
  lemma TimeColumns(value: string, h: int, mi: int, sec: int)
    requires 15 <= |value|
    requires Numerals.ParseInt(value[9..11]) == Some(h)
    requires Numerals.ParseInt(value[11..13]) == Some(mi)
    requires Numerals.ParseInt(value[13..15]) == Some(sec)
    ensures Column(value, 9, 11) == Some(h) && Column(value, 11, 13) == Some(mi)
    ensures Column(value, 13, 15) == Some(sec)
  {
    ColumnValue(value, 9, 11, h);
    ColumnValue(value, 11, 13, mi);
    ColumnValue(value, 13, 15, sec);
  }

  /** A DATE-TIME value `YYYYMMDDTHHMMSSZ` is read by columns as a UTC instant. */
  lemma ParseUtcDateTime(value: string, params: map<string, string>,
                         y: int, mo: int, d: int, h: int, mi: int, sec: int)
    requires |value| == 16 && ';' !in value && value[15] == 'Z' && !HasValueDate(params)
    requires Numerals.ParseInt(value[0..4]) == Some(y)
    requires Numerals.ParseInt(value[4..6]) == Some(mo)
    requires Numerals.ParseInt(value[6..8]) == Some(d)
    requires Numerals.ParseInt(value[9..11]) == Some(h)
    requires Numerals.ParseInt(value[11..13]) == Some(mi)
    requires Numerals.ParseInt(value[13..15]) == Some(sec)
    ensures ParseDateTime(value, params) == UtcTime(Some(y), Some(mo - 1), Some(d), Some(h), Some(mi), Some(sec))
  {
    NoTzidWithoutSemicolon(value);
    Strings.EndsWithChar(value, 'Z');
    DateTimeShape(value, params);
    DateColumns(value, y, mo, d);
    MonthOf(Column(value, 4, 6), mo);
    TimeColumns(value, h, mi, sec);
  }

  /** A DATE-TIME value `YYYYMMDDTHHMMSS` without `Z` is read by columns as local time. */
  lemma ParseLocalDateTime(value: string, params: map<string, string>,
                           y: int, mo: int, d: int, h: int, mi: int, sec: int)
    requires |value| == 15 && ';' !in value && value[14] != 'Z' && !HasValueDate(params)
    requires Numerals.ParseInt(value[0..4]) == Some(y)
    requires Numerals.ParseInt(value[4..6]) == Some(mo)
    requires Numerals.ParseInt(value[6..8]) == Some(d)
    requires Numerals.ParseInt(value[9..11]) == Some(h)
    requires Numerals.ParseInt(value[11..13]) == Some(mi)
    requires Numerals.ParseInt(value[13..15]) == Some(sec)
    ensures ParseDateTime(value, params) == LocalTime(Some(y), Some(mo - 1), Some(d), Some(h), Some(mi), Some(sec))
  {
    NoTzidWithoutSemicolon(value);
    Strings.EndsWithChar(value, 'Z');
    DateTimeShape(value, params);
    DateColumns(value, y, mo, d);
    MonthOf(Column(value, 4, 6), mo);
    TimeColumns(value, h, mi, sec);
  }

  // ---------------------------------------------------------------------------
  // Event assembly
  // ---------------------------------------------------------------------------

  /** Which part of an event a field line fills. */
  datatype Slot = Summary | Description | Location | Start | End | Uid | Url | Ignored

  /** The field names the reader understands, and the part each fills. */
  function SlotOf(name: string): (slot: Slot)
    ensures slot == Start <==> name == "DTSTART"
  {
    match name
    case "SUMMARY" => Summary
    case "DESCRIPTION" => Description
    case "LOCATION" => Location
    case "DTSTART" => Start
    case "DTEND" => End
    case "UID" => Uid
    case "URL" => Url
    case _ => Ignored
  }

  /** Different understood names fill different parts. */
  lemma SlotOfInjective(m: string, n: string)
    requires SlotOf(m) == SlotOf(n) != Ignored
    ensures m == n
  {
  }

  /** Stores one field line in the open event; a name the reader does not understand changes nothing. */
  function ApplyField(e: Event, f: FieldLine): (r: Event)
    ensures SlotOf(f.name) == Ignored ==> r == e
    ensures r.feedName == e.feedName
    ensures f.name == "DTSTART" ==> r.start.Some? && r.isAllDay == Some(HasValueDate(f.params))
    ensures r.start.Some? <==> e.start.Some? || f.name == "DTSTART"
  {
    match SlotOf(f.name)
    case Summary => e.(summary := Some(Unescape(f.value)))
    case Description => e.(description := Some(Unescape(f.value)))
    case Location => e.(location := Some(Unescape(f.value)))
    case Start => e.(start := Some(ParseDateTime(f.value, f.params)), isAllDay := Some(HasValueDate(f.params)))
    case End => e.(end := Some(ParseDateTime(f.value, f.params)))
    case Uid => e.(uid := Some(f.value))
    case Url => e.(url := Some(f.value))
    case Ignored => e
  }

  /** A repeated field keeps only its last value. */
  lemma ApplyFieldLastWins(e: Event, f: FieldLine, g: FieldLine)
    requires f.name == g.name
    ensures ApplyField(ApplyField(e, f), g) == ApplyField(e, g)
  {
  }

  /** Fields with different names are stored independently, in either order. */
  lemma ApplyFieldCommutes(e: Event, f: FieldLine, g: FieldLine)
    requires f.name != g.name
    ensures ApplyField(ApplyField(e, f), g) == ApplyField(ApplyField(e, g), f)
  {
    if SlotOf(f.name) == SlotOf(g.name) && SlotOf(f.name) != Ignored {
      SlotOfInjective(f.name, g.name);
    }
  }

  /** The reader's state between logical lines. */
  datatype ParserState = ParserState(events: seq<Event>, current: Option<Event>)

  /** Every emitted event is complete and carries the feed's name; so does the open one. */
  ghost predicate WellTagged(st: ParserState, feedName: string) {
    && (forall i :: 0 <= i < |st.events| ==> Emittable(st.events[i]) && st.events[i].feedName == feedName)
    && (st.current.Some? ==> st.current.value.feedName == feedName)
  }

  /** One logical line. */
  function Step(st: ParserState, line: string, feedName: string): (r: ParserState)
    ensures |st.events| <= |r.events| <= |st.events| + 1 && r.events[..|st.events|] == st.events
    ensures |r.events| > |st.events| ==> (line == "END:VEVENT" && st.current.Some?
                                          && Emittable(st.current.value) && r.events[|st.events|] == st.current.value)
    ensures line == "BEGIN:VEVENT" ==> r.current == Some(NewEvent(feedName)) && r.events == st.events
    ensures line == "END:VEVENT" ==> r.current.None?
    ensures (line == "END:VEVENT" && st.current.Some? && Emittable(st.current.value))
              ==> r == ParserState(st.events + [st.current.value], None)
    ensures (line == "END:VEVENT" && st.current.Some? && !Emittable(st.current.value))
              ==> r == ParserState(st.events, None)
    ensures st.current.None? && line != "BEGIN:VEVENT" ==> r == st
    ensures WellTagged(st, feedName) ==> WellTagged(r, feedName)
  {
    if line == "BEGIN:VEVENT" then ParserState(st.events, Some(NewEvent(feedName)))
    else if line == "END:VEVENT" && st.current.Some? then
      var e := st.current.value;
      ParserState(if Emittable(e) then st.events + [e] else st.events, None)
    else if st.current.Some? then
      match ParseLine(line)
      case Some(f) => ParserState(st.events, Some(ApplyField(st.current.value, f)))
      case None => st
    else st
  }

  /** The lines, one after another. */
  function Run(st: ParserState, lines: seq<string>, feedName: string): (r: ParserState)
    ensures WellTagged(st, feedName) ==> WellTagged(r, feedName)
    decreases |lines|
  {
    if lines == [] then st else Run(Step(st, lines[0], feedName), lines[1..], feedName)
  }

  /** Reading lines in two parts is reading them all at once. */
  lemma {:induction false} RunAppend(st: ParserState, a: seq<string>, b: seq<string>, feedName: string)
    ensures Run(st, a + b, feedName) == Run(Run(st, a, feedName), b, feedName)
    decreases |a|
  {
    if a != [] {
      assert (a + b)[0] == a[0] && (a + b)[1..] == a[1..] + b;
      assert Run(st, a + b, feedName) == Run(Step(st, a[0], feedName), a[1..] + b, feedName);
      RunAppend(Step(st, a[0], feedName), a[1..], b, feedName);
    } else {
      assert a + b == b;
    }
  }

  /** Events come out in source order: later lines only append to what is already emitted. */
  lemma {:induction false} RunExtends(st: ParserState, lines: seq<string>, feedName: string)
    ensures |st.events| <= |Run(st, lines, feedName).events|
    ensures Run(st, lines, feedName).events[..|st.events|] == st.events
    decreases |lines|
  {
    if lines != [] {
      var next := Step(st, lines[0], feedName);
      RunExtends(next, lines[1..], feedName);
    }
  }

  const Initial := ParserState([], None)

  /** `parseICalendar(icalData, feedName)`. */
  function ParseICalendar(text: string, feedName: string): (events: seq<Event>)
    ensures forall i :: 0 <= i < |events| ==> Emittable(events[i]) && events[i].feedName == feedName
  {
    var lines := Unfold(SplitLines(text));
    assert WellTagged(Initial, feedName);
    Run(Initial, lines, feedName).events
  }

  /** A field line inside an open event stores the field and emits nothing. */
  lemma StepField(st: ParserState, line: string, feedName: string, f: FieldLine)
    requires st.current.Some? && line != "BEGIN:VEVENT" && line != "END:VEVENT" && ParseLine(line) == Some(f)
    ensures Step(st, line, feedName) == ParserState(st.events, Some(ApplyField(st.current.value, f)))
  {
  }

  lemma RunCons(st: ParserState, line: string, rest: seq<string>, feedName: string)
    ensures Run(st, [line] + rest, feedName) == Run(Step(st, line, feedName), rest, feedName)
  {
    assert ([line] + rest)[1..] == rest;
  }

  /** A plain `SUMMARY` line inside an event sets the (unescaped) summary. */
  lemma SummaryStep(events: seq<Event>, e: Event, summary: string, feedName: string)
    requires summary != [] && '\\' !in summary
    ensures Step(ParserState(events, Some(e)), "SUMMARY:" + summary, feedName)
         == ParserState(events, Some(e.(summary := Some(summary))))
  {
    var line := "SUMMARY:" + summary;
    assert "SUMMARY" + ":" == "SUMMARY:";
    assert line[0] == 'S';
    ParseLinePlain("SUMMARY", summary);
    UnescapeNoBackslash(summary);
    StepField(ParserState(events, Some(e)), line, feedName, FieldLine("SUMMARY", map[], summary));
  }

  /** A plain `DTSTART` line inside an event sets a timed start. */
  lemma StartStep(events: seq<Event>, e: Event, startValue: string, feedName: string)
    ensures Step(ParserState(events, Some(e)), "DTSTART:" + startValue, feedName)
         == ParserState(events, Some(e.(start := Some(ParseDateTime(startValue, map[])), isAllDay := Some(false))))
  {
    var line := "DTSTART:" + startValue;
    assert "DTSTART" + ":" == "DTSTART:";
    assert line[0] == 'D';
    ParseLinePlain("DTSTART", startValue);
    StepField(ParserState(events, Some(e)), line, feedName, FieldLine("DTSTART", map[], startValue));
    ApplyStart(e, startValue);
  }

  lemma ApplyStart(e: Event, v: string)
    ensures ApplyField(e, FieldLine("DTSTART", map[], v))
         == e.(start := Some(ParseDateTime(v, map[])), isAllDay := Some(false))
  {
    assert SlotOf("DTSTART") == Start;
    assert !HasValueDate(map[]);
  }

  /** Four lines are four steps. */
  lemma RunFour(st: ParserState, a: string, b: string, c: string, d: string, feedName: string)
    ensures Run(st, [a, b, c, d], feedName)
         == Step(Step(Step(Step(st, a, feedName), b, feedName), c, feedName), d, feedName)
  {
    assert [a, b, c, d] == [a] + ([b] + ([c] + [d]));
    var st1 := Step(st, a, feedName);
    var st2 := Step(st1, b, feedName);
    var st3 := Step(st2, c, feedName);
    RunCons(st, a, [b] + ([c] + [d]), feedName);
    RunCons(st1, b, [c] + [d], feedName);
    RunCons(st2, c, [d], feedName);
    RunCons(st3, d, [], feedName);
  }

  /** `END:VEVENT` closes an emittable open event and appends it to whatever was emitted before. */
  lemma EndStep(st: ParserState, feedName: string)
    requires st.current.Some? && Emittable(st.current.value)
    ensures Step(st, "END:VEVENT", feedName) == ParserState(st.events + [st.current.value], None)
  {
  }

  /** The four lines of a minimal event block. */
  function Block(summary: string, startValue: string): seq<string> {
    ["BEGIN:VEVENT", "SUMMARY:" + summary, "DTSTART:" + startValue, "END:VEVENT"]
  }

  /** The event such a block describes. */
  function BlockEvent(summary: string, startValue: string, feedName: string): Event {
    NewEvent(feedName).(summary := Some(summary), start := Some(ParseDateTime(startValue, map[])), isAllDay := Some(false))
  }

  /**
   * A block with a summary and a start, read in any state, appends exactly
   * its event, in its feed, after the events already emitted.
   */
  lemma SingleEvent(st: ParserState, summary: string, startValue: string, feedName: string)
    requires summary != [] && '\\' !in summary
    ensures Run(st, Block(summary, startValue), feedName)
         == ParserState(st.events + [BlockEvent(summary, startValue, feedName)], None)
  {
    var named := NewEvent(feedName).(summary := Some(summary));
    var complete := named.(start := Some(ParseDateTime(startValue, map[])), isAllDay := Some(false));
    assert complete == BlockEvent(summary, startValue, feedName);
    RunFour(st, "BEGIN:VEVENT", "SUMMARY:" + summary, "DTSTART:" + startValue, "END:VEVENT", feedName);
    SummaryStep(st.events, NewEvent(feedName), summary, feedName);
    StartStep(st.events, named, startValue, feedName);
    EndStep(ParserState(st.events, Some(complete)), feedName);
  }

  /** A block the reader takes verbatim: a non-empty summary without escapes, no line breaks, no trailing blank. */
  predicate SimpleBlock(summary: string, startValue: string) {
    && summary != [] && '\\' !in summary && '\n' !in summary && '\r' !in summary
    && !Strings.IsJsSpace(summary[|summary| - 1])
    && '\n' !in startValue && '\r' !in startValue
    && (startValue == [] || !Strings.IsJsSpace(startValue[|startValue| - 1]))
  }

  /** Blocks one after another. */
  function Blocks(specs: seq<(string, string)>): seq<string> {
    if specs == [] then [] else Block(specs[0].0, specs[0].1) + Blocks(specs[1..])
  }

  /** The events the blocks describe, in the same order. */
  function BlockEvents(specs: seq<(string, string)>, feedName: string): (r: seq<Event>)
    ensures |r| == |specs|
  {
    if specs == [] then [] else [BlockEvent(specs[0].0, specs[0].1, feedName)] + BlockEvents(specs[1..], feedName)
  }

  /** Reading blocks emits one event per block, in block order, after what was already emitted. */
  lemma {:induction false} RunBlocks(st: ParserState, specs: seq<(string, string)>, feedName: string)
    requires forall i :: 0 <= i < |specs| ==> specs[i].0 != [] && '\\' !in specs[i].0
    ensures Run(st, Blocks(specs), feedName).events == st.events + BlockEvents(specs, feedName)
    decreases |specs|
  {
    if specs == [] {
      assert st.events + BlockEvents(specs, feedName) == st.events;
    } else {
      var e := BlockEvent(specs[0].0, specs[0].1, feedName);
      var next := ParserState(st.events + [e], None);
      RunFirstBlock(st, specs, feedName);
      RunBlocks(next, specs[1..], feedName);
      ConcatAssoc(st.events, [e], BlockEvents(specs[1..], feedName));
    }
  }

  /** The first block is read, and its event emitted, before the others. */
  lemma RunFirstBlock(st: ParserState, specs: seq<(string, string)>, feedName: string)
    requires specs != [] && specs[0].0 != [] && '\\' !in specs[0].0
    ensures Run(st, Blocks(specs), feedName)
         == Run(ParserState(st.events + [BlockEvent(specs[0].0, specs[0].1, feedName)], None), Blocks(specs[1..]), feedName)
  {
    var summary, v := specs[0].0, specs[0].1;
    RunAppend(st, Block(summary, v), Blocks(specs[1..]), feedName);
    SingleEvent(st, summary, v, feedName);
  }

  /** A physical line unfolding and line splitting leave alone. */
  predicate PlainLine(line: string) {
    && line != [] && !Strings.IsJsSpace(line[0]) && !Strings.IsJsSpace(line[|line| - 1])
    && '\n' !in line && '\r' !in line
  }

  /** Splitting text that starts with a piece free of line breaks yields that piece, then the rest's pieces. */
  lemma {:induction false} SplitLinesPrefix(a: string, b: string)
    requires '\n' !in a && '\r' !in a
    ensures SplitLines(a + b) == [a + SplitLines(b)[0]] + SplitLines(b)[1..]
  {
    if a != [] {
      var sb := SplitLines(b);
      SplitLinesPrefix(a[1..], b);
      assert (a + b)[1..] == a[1..] + b;
      var rest := SplitLines(a[1..] + b);
      assert rest[0] == a[1..] + sb[0] && rest[1..] == sb[1..];
      assert [a[0]] + rest[0] == a + sb[0];
      assert a[0] in a;
      assert SplitLines(a + b) == [[a[0]] + rest[0]] + rest[1..];
    } else {
      var sb := SplitLines(b);
      assert a + b == b && a + sb[0] == sb[0];
      assert sb == [sb[0]] + sb[1..];
    }
  }

  /** Lines free of line breaks, joined with `\n`, split back into the same lines. */
  lemma {:induction false} SplitLinesOfJoin(lines: seq<string>)
    requires |lines| >= 1
    requires forall i :: 0 <= i < |lines| ==> '\n' !in lines[i] && '\r' !in lines[i]
    ensures SplitLines(Strings.Join(lines, "\n")) == lines
  {
    if |lines| == 1 {
      SplitLinesPrefix(lines[0], []);
      assert lines[0] + [] == lines[0];
    } else {
      var rest := Strings.Join(lines[1..], "\n");
      SplitLinesOfJoin(lines[1..]);
      SplitLinesPrefix(lines[0], "\n" + rest);
      assert lines[0] + "\n" + rest == lines[0] + ("\n" + rest);
      assert ("\n" + rest)[1..] == rest;
      assert SplitLines("\n" + rest) == [[]] + lines[1..];
      assert lines[0] + [] == lines[0];
      assert lines == [lines[0]] + lines[1..];
    }
  }

  /** Plain lines unfold to themselves. */
  lemma {:induction false} UnfoldFromPlain(current: string, rest: seq<string>)
    requires forall i :: 0 <= i < |rest| ==> PlainLine(rest[i])
    ensures UnfoldFrom(current, rest) == [current] + rest
    decreases |rest|
  {
    if rest != [] {
      var line := rest[0];
      assert PlainLine(line);
      assert !IsContinuation(line) by {
        assert line[0] != ' ' && line[0] != '\t';
      }
      Strings.TrimOfTrimmed(line);
      assert UnfoldFrom(current, rest) == [current] + UnfoldFrom(line, rest[1..]);
      UnfoldFromPlain(line, rest[1..]);
      assert rest == [line] + rest[1..];
    }
  }

  /** A plain line followed by text without line breaks or a trailing blank is plain. */
  lemma PlainAppend(a: string, b: string)
    requires PlainLine(a) && '\n' !in b && '\r' !in b
    requires b == [] || !Strings.IsJsSpace(b[|b| - 1])
    ensures PlainLine(a + b)
  {
    var ab := a + b;
    assert ab[0] == a[0];
    assert ab[|ab| - 1] == if b == [] then a[|a| - 1] else b[|b| - 1];
    assert forall c :: c in ab ==> c in a || c in b;
  }

  /** The four lines of a well-formed block are plain. */
  lemma BlockPlain(summary: string, v: string)
    requires SimpleBlock(summary, v)
    ensures forall i :: 0 <= i < 4 ==> PlainLine(Block(summary, v)[i])
  {
    assert PlainLine("SUMMARY:") && PlainLine("DTSTART:");
    PlainAppend("SUMMARY:", summary);
    PlainAppend("DTSTART:", v);
    assert PlainLine("BEGIN:VEVENT") && PlainLine("END:VEVENT");
  }

  /** Every line of well-formed blocks is plain. */
  lemma {:induction false} BlocksPlain(specs: seq<(string, string)>)
    requires forall i :: 0 <= i < |specs| ==> SimpleBlock(specs[i].0, specs[i].1)
    ensures forall i :: 0 <= i < |Blocks(specs)| ==> PlainLine(Blocks(specs)[i])
    decreases |specs|
  {
    if specs != [] {
      BlocksPlain(specs[1..]);
      var b := Block(specs[0].0, specs[0].1);
      BlockPlain(specs[0].0, specs[0].1);
      var rest := Blocks(specs[1..]);
      var all := Blocks(specs);
      assert all == b + rest;
      forall i | 0 <= i < |all|
        ensures PlainLine(all[i])
      {
        if i < 4 {
          assert all[i] == b[i];
        } else {
          assert all[i] == rest[i - 4];
        }
      }
    }
  }

  /** Plain lines joined with `\n` split and unfold back into themselves. */
  lemma PlainLinesRead(lines: seq<string>)
    requires |lines| >= 1
    requires forall i :: 0 <= i < |lines| ==> PlainLine(lines[i])
    ensures Unfold(SplitLines(Strings.Join(lines, "\n"))) == lines
  {
    SplitLinesOfJoin(lines);
    UnfoldPlain(lines);
  }

  lemma UnfoldPlain(lines: seq<string>)
    requires |lines| >= 1
    requires forall i :: 0 <= i < |lines| ==> PlainLine(lines[i])
    ensures Unfold(lines) == lines
  {
    var first := lines[0];
    assert PlainLine(first);
    Strings.TrimOfTrimmed(first);
    UnfoldFromPlain(first, lines[1..]);
    HeadTail(lines);
  }

  lemma HeadTail<X>(s: seq<X>)
    requires s != []
    ensures [s[0]] + s[1..] == s
  {
  }

  /**
   * Text made of well-formed blocks, one line each, parses to exactly the
   * events those blocks describe, in order.
   */
  lemma ParseICalendarBlocks(specs: seq<(string, string)>, feedName: string)
    requires forall i :: 0 <= i < |specs| ==> SimpleBlock(specs[i].0, specs[i].1)
    ensures ParseICalendar(Strings.Join(Blocks(specs), "\n"), feedName) == BlockEvents(specs, feedName)
  {
    var lines := Blocks(specs);
    if specs == [] {
      assert Strings.Join(lines, "\n") == [];
      assert Unfold(SplitLines([])) == [[]];
      RunCons(Initial, [], [], feedName);
    } else {
      BlocksPlain(specs);
      assert |lines| >= 4;
      PlainLinesRead(lines);
      RunBlocks(Initial, specs, feedName);
    }
  }

  // ---------------------------------------------------------------------------
  // Loading every feed
  // ---------------------------------------------------------------------------

  /** What fetching one feed produced: its body, or a failure (caught and logged). */
  datatype Fetched = Body(text: string) | Failed

  /** A failed feed contributes no events, exactly like an empty one. */
  function FeedEvents(feed: Feed, outcome: Fetched): seq<Event> {
    match outcome
    case Body(text) => ParseICalendar(text, feed.name)
    case Failed => []
  }

  /** What each feed produced, in the order of the feed list. */
  function FeedResults(feeds: seq<Feed>, outcomes: seq<Fetched>): (r: seq<seq<Event>>)
    requires |outcomes| == |feeds|
    ensures |r| == |feeds|
  {
    seq(|feeds|, i requires 0 <= i < |feeds| => FeedEvents(feeds[i], outcomes[i]))
  }

  /** The events of every feed, feed after feed. */
  function Collect(feeds: seq<Feed>, outcomes: seq<Fetched>): seq<Event>
    requires |outcomes| == |feeds|
  {
    Lists.Flatten(FeedResults(feeds, outcomes))
  }

  /** The sort key of an event: the time value of its start. */
  function StartKey(instant: DateTime -> int): Event -> int {
    (e: Event) => if e.start.Some? then instant(e.start.value) else 0
  }

  /** The widget either shows its empty state (no feeds: nothing is fetched) or the loaded events. */
  datatype Load = EmptyState | Loaded(events: seq<Event>)

  /**
   * `loadEvents`: with no feeds nothing is fetched; otherwise every feed's
   * events are gathered and sorted by start, soonest first.
   */
  function LoadEvents(feeds: seq<Feed>, outcomes: seq<Fetched>, instant: DateTime -> int): (r: Load)
    requires |outcomes| == |feeds|
    ensures r.EmptyState? <==> feeds == []
    ensures r.Loaded? ==> multiset(r.events) == multiset(Collect(feeds, outcomes))
    ensures r.Loaded? ==> Sorting.AdjacentSortedBy(r.events, StartKey(instant))
  {
    if feeds == [] then EmptyState
    else Loaded(Sorting.SortBy(Collect(feeds, outcomes), StartKey(instant)))
  }

  /** Every event that is shown came from a feed that was fetched successfully, and carries its name. */
  lemma CollectProvenance(feeds: seq<Feed>, outcomes: seq<Fetched>, e: Event)
    requires |outcomes| == |feeds| && e in Collect(feeds, outcomes)
    ensures Emittable(e)
    ensures exists i :: 0 <= i < |feeds| && outcomes[i].Body? && e.feedName == feeds[i].name
  {
    var i := Lists.FlattenMember(FeedResults(feeds, outcomes), e);
    var events := FeedEvents(feeds[i], outcomes[i]);
    var k :| 0 <= k < |events| && events[k] == e;
  }

  /** A failing feed never holds back another: each feed's events all reach the merged list. */
  lemma CollectKeepsEachFeed(feeds: seq<Feed>, outcomes: seq<Fetched>, i: nat)
    requires |outcomes| == |feeds| && i < |feeds|
    ensures multiset(FeedEvents(feeds[i], outcomes[i])) <= multiset(Collect(feeds, outcomes))
  {
    Lists.FlattenKeeps(FeedResults(feeds, outcomes), i);
  }

  /** Events that start at the same time keep the order of the feed list and of each feed. */
  lemma LoadEventsStable(feeds: seq<Feed>, outcomes: seq<Fetched>, instant: DateTime -> int, t: int)
    requires |outcomes| == |feeds| && feeds != []
    ensures Sorting.KeyFilter(LoadEvents(feeds, outcomes, instant).events, StartKey(instant), t)
         == Sorting.KeyFilter(Collect(feeds, outcomes), StartKey(instant), t)
  {
    Sorting.SortByStable(Collect(feeds, outcomes), StartKey(instant), t);
  }
}
