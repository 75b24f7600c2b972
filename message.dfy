/**
 * The message parser of `src/message.py`: a bounded split padded to a fixed
 * field count, and the parser of the `I` (initial) and `T` (telemetry)
 * records, including the loop that consumes martian objects.
 *
 * `int()` and `float()` on a token are parameters `toInt` and `toFloat`:
 * partial conversions that answer `None` where Python raises ValueError.
 */
module Message {
  import opened Wrappers
  import opened Strings

  // ---------------------------------------------------------------------
  // Splitting and stripping
  // ---------------------------------------------------------------------

  /** The fields laid end to end with `sep` between them (`sep.join`). */
  function Join(parts: seq<seq<char>>, sep: char): seq<char>
    requires |parts| >= 1
  {
    if |parts| == 1 then parts[0] else parts[0] + [sep] + Join(parts[1..], sep)
  }

  /**
   * `s.split(sep, maxsplit)` for a one-character separator: cut at the first
   * `maxsplit` separators, or at all of them when `maxsplit` is negative.
   */
  function Split(s: seq<char>, sep: char, maxsplit: int): (r: seq<seq<char>>)
    ensures |r| >= 1
    ensures forall k :: 0 <= k < |r| - 1 ==> sep !in r[k]
    ensures maxsplit >= 0 ==> |r| <= maxsplit + 1
    ensures maxsplit < 0 || |r| <= maxsplit ==> sep !in r[|r| - 1]
    decreases |s|
  {
    match FirstIndex(s, sep)
    case None => [s]
    case Some(i) =>
      if maxsplit == 0 then [s]
      else [s[..i]] + Split(s[i + 1..], sep, if maxsplit > 0 then maxsplit - 1 else maxsplit)
  }

  lemma JoinCons(head: seq<char>, rest: seq<seq<char>>, sep: char)
    requires |rest| >= 1
    ensures Join([head] + rest, sep) == head + [sep] + Join(rest, sep)
  {
    assert ([head] + rest)[1..] == rest;
  }

  /** Joining the fields with the separator gives back the text: nothing is lost or added. */
  lemma {:induction false} SplitJoin(s: seq<char>, sep: char, maxsplit: int)
    ensures Join(Split(s, sep, maxsplit), sep) == s
    decreases |s|
  {
    match FirstIndex(s, sep)
    case None =>
      assert Split(s, sep, maxsplit) == [s];
    case Some(i) =>
      if maxsplit == 0 {
        assert Split(s, sep, maxsplit) == [s];
      } else {
        var m := if maxsplit > 0 then maxsplit - 1 else maxsplit;
        SplitJoin(s[i + 1..], sep, m);
        SplitJoinStep(s, sep, maxsplit, i);
      }
  }

  /** One cut of `SplitJoin`: the first field, the separator, and the rest joined back. */
  lemma SplitJoinStep(s: seq<char>, sep: char, maxsplit: int, i: nat)
    requires FirstIndex(s, sep) == Some(i) && maxsplit != 0
    requires Join(Split(s[i + 1..], sep, if maxsplit > 0 then maxsplit - 1 else maxsplit), sep) == s[i + 1..]
    ensures Join(Split(s, sep, maxsplit), sep) == s
  {
    var rest := Split(s[i + 1..], sep, if maxsplit > 0 then maxsplit - 1 else maxsplit);
    SplitCut(s, sep, maxsplit, i);
    JoinCons(s[..i], rest, sep);
    Around(s, i);
  }

  lemma SplitCut(s: seq<char>, sep: char, maxsplit: int, i: nat)
    requires FirstIndex(s, sep) == Some(i) && maxsplit != 0
    ensures Split(s, sep, maxsplit) == [s[..i]] + Split(s[i + 1..], sep, if maxsplit > 0 then maxsplit - 1 else maxsplit)
  {
  }

  /** `s` is nonempty and its last character is `c`. */
  predicate EndsWith(s: seq<char>, c: char)
  {
    |s| > 0 && s[|s| - 1] == c
  }

  /** The last field of a split ends where the text ends, when the text does not end in the separator. */
  lemma {:induction false} SplitKeepsLastChar(s: seq<char>, sep: char, maxsplit: int)
    requires |s| > 0 && s[|s| - 1] != sep
    ensures var r := Split(s, sep, maxsplit); EndsWith(r[|r| - 1], s[|s| - 1])
    decreases |s|
  {
    if FirstIndex(s, sep).None? || maxsplit == 0 {
      SplitWhole(s, sep, maxsplit);
    } else {
      var i := FirstIndex(s, sep).value;
      var tail := s[i + 1..];
      assert |tail| > 0 && tail[|tail| - 1] == s[|s| - 1];
      SplitKeepsLastChar(tail, sep, if maxsplit > 0 then maxsplit - 1 else maxsplit);
      SplitDropsFirst(s, sep, maxsplit, i);
      LastAfterDrop(Split(s, sep, maxsplit), Split(tail, sep, if maxsplit > 0 then maxsplit - 1 else maxsplit), s[|s| - 1]);
    }
  }

  /** Dropping the first field leaves the last one. */
  lemma LastAfterDrop(r: seq<seq<char>>, rest: seq<seq<char>>, c: char)
    requires |rest| >= 1 && |r| == |rest| + 1 && r[1..] == rest
    ensures EndsWith(r[|r| - 1], c) <==> EndsWith(rest[|rest| - 1], c)
  {
    assert r[|r| - 1] == rest[|rest| - 1];
  }

  /** Without a separator, or with no cuts allowed, the text is its own only field. */
  lemma SplitWhole(s: seq<char>, sep: char, maxsplit: int)
    requires FirstIndex(s, sep).None? || maxsplit == 0
    ensures Split(s, sep, maxsplit) == [s]
  {
  }

  /** The first cut leaves the other fields in place. */
  lemma SplitDropsFirst(s: seq<char>, sep: char, maxsplit: int, i: nat)
    requires FirstIndex(s, sep) == Some(i) && maxsplit != 0
    ensures var r, rest := Split(s, sep, maxsplit), Split(s[i + 1..], sep, if maxsplit > 0 then maxsplit - 1 else maxsplit);
      |r| == |rest| + 1 && r[1..] == rest
  {
    SplitCut(s, sep, maxsplit, i);
  }

  lemma Around(s: seq<char>, i: nat)
    requires i < |s|
    ensures s == s[..i] + [s[i]] + s[i + 1..]
  {
    assert s[i..] == [s[i]] + s[i + 1..];
    assert s == s[..i] + s[i..];
  }

  /** The whitespace `str.strip()` removes. */
  predicate IsSpace(c: char)
  {
    c == ' ' || c == '\t' || c == '\n' || c == '\r' || c as int == 11 || c as int == 12
  }

  function DropLeading(s: seq<char>): (r: seq<char>)
    ensures |r| <= |s| && r == s[|s| - |r|..]
    ensures forall k :: 0 <= k < |s| - |r| ==> IsSpace(s[k])
    ensures r == [] || !IsSpace(r[0])
  {
    if s != [] && IsSpace(s[0]) then
      var r := DropLeading(s[1..]);
      assert s[1..][|s| - 1 - |r|..] == s[|s| - |r|..];
      r
    else s
  }

  function DropTrailing(s: seq<char>): (r: seq<char>)
    ensures |r| <= |s| && r == s[..|r|]
    ensures forall k :: |r| <= k < |s| ==> IsSpace(s[k])
    ensures r == [] || !IsSpace(r[|r| - 1])
  {
    if s != [] && IsSpace(s[|s| - 1]) then DropTrailing(s[..|s| - 1]) else s
  }

  /** `s.strip()`. */
  function Strip(s: seq<char>): seq<char>
  {
    DropLeading(DropTrailing(s))
  }

  /** `fields` extended with empty strings up to `n` entries. */
  function Padded(fields: seq<seq<char>>, n: int): (r: seq<seq<char>>)
    ensures |r| == if |fields| < n then n else |fields|
    ensures r[..|fields|] == fields
    ensures forall k :: |fields| <= k < |r| ==> r[k] == []
    decreases n - |fields|
  {
    if |fields| < n then Padded(fields + [[]], n) else fields
  }

  /** `safe_split`: split at the first `n - 1` separators, then pad with '' to `n` fields. */
  method SafeSplit(s: seq<char>, sep: char, n: int) returns (fields: seq<seq<char>>)
    ensures fields == Padded(Split(s, sep, n - 1), n)
    ensures n >= 1 ==> |fields| == n
  {
    fields := Split(s, sep, n - 1);
    while |fields| < n
      invariant Padded(fields, n) == Padded(Split(s, sep, n - 1), n)
      decreases n - |fields|
    {
      fields := fields + [[]];
    }
  }

  // ---------------------------------------------------------------------
  // Records
  // ---------------------------------------------------------------------

  /** A martian entry of a telemetry record (its direction in degrees; radians are derived). */
  datatype MartianRecord = MartianRecord(xPos: real, yPos: real, dirDegrees: real, speed: real)

  /** The dict `parse_message` returns: an `I` record, a `T` record, or `{}` for anything else. */
  datatype Message =
    | Initial(dx: seq<char>, dy: seq<char>, timeLimit: int, minSens: real, maxSens: real,
              maxSpeed: real, maxTurn: real, maxHardTurn: real)
    | Telemetry(timeStamp: int, accelState: char, turnState: char, xPos: real, yPos: real,
                dirDegrees: real, speed: real, objects: seq<MartianRecord>)
    | Unrecognised

  /** What the source raises; `Stuck` is the object loop that can never advance. */
  datatype ParseError =
    | EmptyInput                        // `data[0]` on ''
    | FieldCount(count: nat)            // unpacking the wrong number of tokens
    | NotAnInt(token: seq<char>)        // `int()` refused the token
    | NotAFloat(token: seq<char>)       // `float()` refused the token
    | ControlTooShort(token: seq<char>) // `vehicle_ctl[0]` or `[1]` out of range
    | ObjectTooShort(count: nat)        // fewer than 5 tokens left after an `m`
    | Stuck(token: seq<char>)           // a leading token other than `m`: the loop spins forever

  function IntOf(toInt: seq<char> -> Option<int>, token: seq<char>): (r: Result<int, ParseError>)
    ensures r.Ok? <==> toInt(token).Some?
  {
    match toInt(token)
    case Some(v) => Ok(v)
    case None => Err(NotAnInt(token))
  }

  function FloatOf(toFloat: seq<char> -> Option<real>, token: seq<char>): (r: Result<real, ParseError>)
    ensures r.Ok? <==> toFloat(token).Some?
  {
    match toFloat(token)
    case Some(v) => Ok(v)
    case None => Err(NotAFloat(token))
  }

  /**
   * `float()` applied to each token from left to right: every value, or the
   * error of the first token refused.
   */
  function Floats(toFloat: seq<char> -> Option<real>, tokens: seq<seq<char>>): (r: Result<seq<real>, ParseError>)
    ensures r.Ok? ==> |r.value| == |tokens| && forall k :: 0 <= k < |tokens| ==> toFloat(tokens[k]) == Some(r.value[k])
    ensures r.Err? ==> exists k :: (0 <= k < |tokens| && toFloat(tokens[k]).None? && r.error == NotAFloat(tokens[k])
      && forall j :: 0 <= j < k ==> toFloat(tokens[j]).Some?)
  {
    if tokens == [] then Ok([])
    else
      var v :- FloatOf(toFloat, tokens[0]);
      var rest :- Floats(toFloat, tokens[1..]);
      Ok([v] + rest)
  }

  // ---------------------------------------------------------------------
  // The martian-object loop
  // ---------------------------------------------------------------------

  /** What the object loop produces from `tokens`. */
  function Objects(tokens: seq<seq<char>>, toFloat: seq<char> -> Option<real>): Result<seq<MartianRecord>, ParseError>
    decreases |tokens|
  {
    if tokens == [] then Ok([])
    else if tokens[0] != "m" then Err(Stuck(tokens[0]))
    else if |tokens| < 5 then Err(ObjectTooShort(|tokens|))
    else
      var v :- Floats(toFloat, tokens[1..5]);
      var rest :- Objects(tokens[5..], toFloat);
      Ok([MartianRecord(v[0], v[1], v[2], v[3])] + rest)
  }

  /** `done` followed by whatever `rest` parses to. */
  function After(done: seq<MartianRecord>, rest: Result<seq<MartianRecord>, ParseError>): Result<seq<MartianRecord>, ParseError>
  {
    match rest
    case Ok(more) => Ok(done + more)
    case Err(e) => Err(e)
  }

  lemma AfterNothing(rest: Result<seq<MartianRecord>, ParseError>)
    ensures After([], rest) == rest
  {
    if rest.Ok? {
      assert [] + rest.value == rest.value;
    }
  }

  lemma AfterAfter(done: seq<MartianRecord>, more: seq<MartianRecord>, rest: Result<seq<MartianRecord>, ParseError>)
    ensures After(done, After(more, rest)) == After(done + more, rest)
  {
    if rest.Ok? {
      assert done + (more + rest.value) == done + more + rest.value;
    }
  }

  /** The `while objects:` loop of `parse_message`. */
  method ParseObjects(tokens: seq<seq<char>>, toFloat: seq<char> -> Option<real>) returns (r: Result<seq<MartianRecord>, ParseError>)
    ensures r == Objects(tokens, toFloat)
  {
    var objects := tokens;
    var parsed: seq<MartianRecord> := [];
    AfterNothing(Objects(tokens, toFloat));
    while objects != []
      invariant Objects(tokens, toFloat) == After(parsed, Objects(objects, toFloat))
      decreases |objects|
    {
      if objects[0] != "m" {
        // the source appends an empty record and retries the same token forever
        return Err(Stuck(objects[0]));
      }
      if |objects| < 5 {
        return Err(ObjectTooShort(|objects|));
      }
      var v :- Floats(toFloat, objects[1..5]);
      var record := MartianRecord(v[0], v[1], v[2], v[3]);
      assert Objects(objects, toFloat) == After([record], Objects(objects[5..], toFloat));
      AfterAfter(parsed, [record], Objects(objects[5..], toFloat));
      parsed := parsed + [record];
      objects := objects[5..];
    }
    assert parsed + [] == parsed;
    return Ok(parsed);
  }

  /** `recs` is read off `tokens` five at a time: an `m` and the four numbers of each record, in order. */
  ghost predicate FiveEach(tokens: seq<seq<char>>, recs: seq<MartianRecord>, toFloat: seq<char> -> Option<real>)
  {
    && |tokens| == 5 * |recs|
    && forall k :: 0 <= k < |recs| ==>
      && tokens[5 * k] == "m"
      && toFloat(tokens[5 * k + 1]) == Some(recs[k].xPos)
      && toFloat(tokens[5 * k + 2]) == Some(recs[k].yPos)
      && toFloat(tokens[5 * k + 3]) == Some(recs[k].dirDegrees)
      && toFloat(tokens[5 * k + 4]) == Some(recs[k].speed)
  }

  /** Each record comes from exactly five tokens, an `m` and four numbers, in order. */
  lemma {:induction false} ObjectsConsumeFive(tokens: seq<seq<char>>, toFloat: seq<char> -> Option<real>)
    requires Objects(tokens, toFloat).Ok?
    ensures FiveEach(tokens, Objects(tokens, toFloat).value, toFloat)
    decreases |tokens|
  {
    if tokens != [] {
      ObjectsCons(tokens, toFloat);
      ObjectsConsumeFive(tokens[5..], toFloat);
      FiveEachCons(tokens, Objects(tokens, toFloat).value, toFloat);
    }
  }

  /** A successful object loop over nonempty tokens reads one record from the first five. */
  lemma ObjectsCons(tokens: seq<seq<char>>, toFloat: seq<char> -> Option<real>)
    requires tokens != [] && Objects(tokens, toFloat).Ok?
    ensures |tokens| >= 5 && tokens[0] == "m" && Objects(tokens[5..], toFloat).Ok?
    ensures var recs := Objects(tokens, toFloat).value;
      && recs != [] && recs[1..] == Objects(tokens[5..], toFloat).value
      && toFloat(tokens[1]) == Some(recs[0].xPos) && toFloat(tokens[2]) == Some(recs[0].yPos)
      && toFloat(tokens[3]) == Some(recs[0].dirDegrees) && toFloat(tokens[4]) == Some(recs[0].speed)
  {
    var v := Floats(toFloat, tokens[1..5]).value;
    assert toFloat(tokens[1..5][0]) == Some(v[0]) && toFloat(tokens[1..5][1]) == Some(v[1]);
    assert toFloat(tokens[1..5][2]) == Some(v[2]) && toFloat(tokens[1..5][3]) == Some(v[3]);
  }

  lemma FiveEachCons(tokens: seq<seq<char>>, recs: seq<MartianRecord>, toFloat: seq<char> -> Option<real>)
    requires |tokens| >= 5 && recs != [] && tokens[0] == "m"
    requires toFloat(tokens[1]) == Some(recs[0].xPos) && toFloat(tokens[2]) == Some(recs[0].yPos)
    requires toFloat(tokens[3]) == Some(recs[0].dirDegrees) && toFloat(tokens[4]) == Some(recs[0].speed)
    requires FiveEach(tokens[5..], recs[1..], toFloat)
    ensures FiveEach(tokens, recs, toFloat)
  {
    var rest, more := tokens[5..], recs[1..];
    forall k | 0 <= k < |recs|
      ensures && tokens[5 * k] == "m"
              && toFloat(tokens[5 * k + 1]) == Some(recs[k].xPos)
              && toFloat(tokens[5 * k + 2]) == Some(recs[k].yPos)
              && toFloat(tokens[5 * k + 3]) == Some(recs[k].dirDegrees)
              && toFloat(tokens[5 * k + 4]) == Some(recs[k].speed)
    {
      if k > 0 {
        var j := k - 1;
        assert recs[k] == more[j];
        assert tokens[5 * k] == rest[5 * j] && tokens[5 * k + 1] == rest[5 * j + 1];
        assert tokens[5 * k + 2] == rest[5 * j + 2] && tokens[5 * k + 3] == rest[5 * j + 3];
        assert tokens[5 * k + 4] == rest[5 * j + 4];
      }
    }
  }

  /** A leading token other than `m` is never consumed. */
  lemma LeadingNonMartianIsStuck(tokens: seq<seq<char>>, toFloat: seq<char> -> Option<real>)
    requires tokens != [] && tokens[0] != "m"
    ensures Objects(tokens, toFloat) == Err(Stuck(tokens[0]))
  {
  }

  /**
   * A last token that still carries the frame's `;` is never converted, so
   * the object loop cannot finish: it is stuck or it fails.
   */
  lemma {:induction false} TerminatedObjectsFail(tokens: seq<seq<char>>, toFloat: seq<char> -> Option<real>)
    requires tokens != [] && ';' in tokens[|tokens| - 1]
    requires forall t :: ';' in t ==> toFloat(t).None?
    ensures Objects(tokens, toFloat).Err?
    decreases |tokens|
  {
    if tokens[0] == "m" && |tokens| > 5 && Floats(toFloat, tokens[1..5]).Ok? {
      var rest := tokens[5..];
      assert rest[|rest| - 1] == tokens[|tokens| - 1];
      TerminatedObjectsFail(rest, toFloat);
    }
  }

  // ---------------------------------------------------------------------
  // parse_message
  // ---------------------------------------------------------------------

  function ParseInitial(data: seq<char>, toInt: seq<char> -> Option<int>, toFloat: seq<char> -> Option<real>): Result<Message, ParseError>
  {
    var tokens := Split(Strip(data), ' ', -1);
    if |tokens| != 9 then Err(FieldCount(|tokens|))
    else
      var timeLimit :- IntOf(toInt, tokens[3]);
      var v :- Floats(toFloat, tokens[4..]);
      Ok(Initial(tokens[1], tokens[2], timeLimit, v[0], v[1], v[2], v[3], v[4]))
  }

  function ObjectField(objectStr: seq<char>, toFloat: seq<char> -> Option<real>): Result<seq<MartianRecord>, ParseError>
  {
    if objectStr == [] then Ok([]) else Objects(Split(objectStr, ' ', -1), toFloat)
  }

  function ParseTelemetry(data: seq<char>, toInt: seq<char> -> Option<int>, toFloat: seq<char> -> Option<real>): Result<Message, ParseError>
  {
    var f := Padded(Split(data, ' ', 7), 8);
    var timeStamp :- IntOf(toInt, f[1]);
    if |f[2]| < 2 then Err(ControlTooShort(f[2]))
    else
      var v :- Floats(toFloat, f[3..7]);
      var objects :- ObjectField(f[7], toFloat);
      Ok(Telemetry(timeStamp, f[2][0], f[2][1], v[0], v[1], v[2], v[3], objects))
  }

  /** What `parse_message(data)` returns or raises. */
  function Parse(data: seq<char>, toInt: seq<char> -> Option<int>, toFloat: seq<char> -> Option<real>): Result<Message, ParseError>
  {
    if data == [] then Err(EmptyInput)
    else if data[0] == 'I' then ParseInitial(data, toInt, toFloat)
    else if data[0] == 'T' then ParseTelemetry(data, toInt, toFloat)
    else Ok(Unrecognised)
  }

  /** `parse_message`, filling the record field by field. */
  method ParseMessage(data: seq<char>, toInt: seq<char> -> Option<int>, toFloat: seq<char> -> Option<real>)
    returns (r: Result<Message, ParseError>)
    ensures r == Parse(data, toInt, toFloat)
  {
    if data == [] {
      return Err(EmptyInput);
    }
    var kind := data[0];
    r := Ok(Unrecognised);
    if kind == 'I' {
      var tokens := Split(Strip(data), ' ', -1);
      if |tokens| != 9 {
        return Err(FieldCount(|tokens|));
      }
      var timeLimit :- IntOf(toInt, tokens[3]);
      var v :- Floats(toFloat, tokens[4..]);
      r := Ok(Initial(tokens[1], tokens[2], timeLimit, v[0], v[1], v[2], v[3], v[4]));
    }
    if kind == 'T' {
      var f := SafeSplit(data, ' ', 8);
      var timeStamp :- IntOf(toInt, f[1]);
      if |f[2]| < 2 {
        return Err(ControlTooShort(f[2]));
      }
      var v :- Floats(toFloat, f[3..7]);
      var objects: seq<MartianRecord> := [];
      if f[7] != [] {
        objects :- ParseObjects(Split(f[7], ' ', -1), toFloat);
      }
      r := Ok(Telemetry(timeStamp, f[2][0], f[2][1], v[0], v[1], v[2], v[3], objects));
    }
  }

  // ---------------------------------------------------------------------
  // Properties of the parser
  // ---------------------------------------------------------------------

  /** Only `I` and `T` are parsed; an empty message raises. */
  lemma DispatchOnFirstCharacter(data: seq<char>, toInt: seq<char> -> Option<int>, toFloat: seq<char> -> Option<real>)
    ensures data == [] ==> Parse(data, toInt, toFloat) == Err(EmptyInput)
    ensures data != [] && data[0] != 'I' && data[0] != 'T' ==> Parse(data, toInt, toFloat) == Ok(Unrecognised)
  {
  }

  /** An `I` record needs exactly nine space-separated tokens; `dx` and `dy` stay strings. */
  lemma InitialNeedsNineTokens(data: seq<char>, toInt: seq<char> -> Option<int>, toFloat: seq<char> -> Option<real>)
    requires data != [] && data[0] == 'I'
    ensures |Split(Strip(data), ' ', -1)| != 9 ==>
      Parse(data, toInt, toFloat) == Err(FieldCount(|Split(Strip(data), ' ', -1)|))
    ensures Parse(data, toInt, toFloat).Ok? ==>
      var tokens := Split(Strip(data), ' ', -1);
      var m := Parse(data, toInt, toFloat).value;
      && |tokens| == 9
      && m.Initial?
      && m.dx == tokens[1] && m.dy == tokens[2]
      && toInt(tokens[3]) == Some(m.timeLimit)
      && toFloat(tokens[8]) == Some(m.maxHardTurn)
  {
    var tokens := Split(Strip(data), ' ', -1);
    assert Parse(data, toInt, toFloat) == ParseInitial(data, toInt, toFloat);
    if |tokens| == 9 && Parse(data, toInt, toFloat).Ok? {
      var timeLimit := IntOf(toInt, tokens[3]);
      assert timeLimit.Ok?;
      var v := Floats(toFloat, tokens[4..]);
      assert v.Ok?;
      assert Parse(data, toInt, toFloat).value
        == Initial(tokens[1], tokens[2], timeLimit.value, v.value[0], v.value[1], v.value[2], v.value[3], v.value[4]);
      assert tokens[4..][4] == tokens[8];
    }
  }

  /**
   * A `T` record is cut into eight fields, the last one holding the rest of
   * the line; the control token supplies both state characters.
   */
  lemma TelemetryFields(data: seq<char>, toInt: seq<char> -> Option<int>, toFloat: seq<char> -> Option<real>)
    requires data != [] && data[0] == 'T'
    ensures var f := Padded(Split(data, ' ', 7), 8);
      && |f| == 8
      && (|Split(data, ' ', 7)| == 8 ==> Join(f, ' ') == data)
      && (Parse(data, toInt, toFloat).Ok? ==>
          var m := Parse(data, toInt, toFloat).value;
          && m.Telemetry?
          && toInt(f[1]) == Some(m.timeStamp)
          && m.accelState == f[2][0] && m.turnState == f[2][1]
          && (f[7] == [] ==> m.objects == []))
  {
    var parts := Split(data, ' ', 7);
    if |parts| == 8 {
      assert Padded(parts, 8) == parts;
      SplitJoin(data, ' ', 7);
    }
    assert Parse(data, toInt, toFloat) == ParseTelemetry(data, toInt, toFloat);
  }

  /**
   * A `T` message that still ends in its `;` never parses, whatever its
   * fields, given converters that, like Python's `int` and `float`, reject
   * the empty token and any token holding a `;`: the `;` lands in the last
   * field the split produces, and the fields after it are empty.
   */
  lemma TerminatedTelemetryFails(data: seq<char>, toInt: seq<char> -> Option<int>, toFloat: seq<char> -> Option<real>)
    requires |data| > 0 && data[0] == 'T' && data[|data| - 1] == ';'
    requires toInt([]).None? && forall t :: ';' in t ==> toInt(t).None?
    requires toFloat([]).None? && forall t :: ';' in t ==> toFloat(t).None?
    ensures Parse(data, toInt, toFloat).Err?
  {
    var r := Split(data, ' ', 7);
    var n := |r|;
    SplitKeepsLastChar(data, ' ', 7);
    var last := r[n - 1];
    assert last[|last| - 1] == ';';
    var f := Padded(r, 8);
    assert |f| == 8 && f[..n] == r;
    assert f[n - 1] == last;
    if n == 1 {
      assert f[1] == [];
    } else if n == 2 {
      assert ';' in f[1];
    } else if n < 8 {
      var k := if n == 3 then 3 else n - 1;
      assert toFloat(f[k]).None?;
      assert f[3..7][k - 3] == f[k];
    } else {
      assert f == r && f[7] == last;
      TerminatedObjectFieldFails(last, toFloat);
    }
  }

  /** An object field that still ends in the frame's `;` never parses. */
  lemma TerminatedObjectFieldFails(objectStr: seq<char>, toFloat: seq<char> -> Option<real>)
    requires |objectStr| > 0 && objectStr[|objectStr| - 1] == ';'
    requires forall t :: ';' in t ==> toFloat(t).None?
    ensures ObjectField(objectStr, toFloat).Err?
  {
    SplitKeepsLastChar(objectStr, ' ', -1);
    var tokens := Split(objectStr, ' ', -1);
    var lastToken := tokens[|tokens| - 1];
    assert lastToken[|lastToken| - 1] == ';';
    TerminatedObjectsFail(tokens, toFloat);
  }

  /** One step of `Split`: the first separator of `s` ends the first field. */
  lemma SplitAtFirst(s: seq<char>, sep: char, maxsplit: int, i: nat)
    requires maxsplit != 0 && i < |s| && s[i] == sep && sep !in s[..i]
    ensures Split(s, sep, maxsplit) == [s[..i]] + Split(s[i + 1..], sep, if maxsplit > 0 then maxsplit - 1 else maxsplit)
  {
    FirstIndexAt(s, sep, i);
    SplitCut(s, sep, maxsplit, i);
  }

  /** A separator-free token followed by the separator is split off as the first field. */
  lemma SplitOffToken(token: seq<char>, rest: seq<char>, sep: char, maxsplit: int)
    requires maxsplit != 0 && sep !in token
    ensures Split(token + [sep] + rest, sep, maxsplit)
      == [token] + Split(rest, sep, if maxsplit > 0 then maxsplit - 1 else maxsplit)
  {
    var s := token + [sep] + rest;
    assert s[..|token|] == token && s[|token| + 1..] == rest;
    SplitAtFirst(s, sep, maxsplit, |token|);
  }

  /**
   * Splitting a joined list of separator-free fields gives the fields back,
   * when `maxsplit` allows exactly as many cuts as there are separators.
   */
  lemma {:induction false} JoinSplit(parts: seq<seq<char>>, sep: char, maxsplit: int)
    requires |parts| >= 1
    requires forall k :: 0 <= k < |parts| - 1 ==> sep !in parts[k]
    requires maxsplit == |parts| - 1 || (maxsplit < 0 && sep !in parts[|parts| - 1])
    ensures Split(Join(parts, sep), sep, maxsplit) == parts
    decreases |parts|
  {
    if |parts| == 1 {
      if maxsplit != 0 {
        assert FirstIndex(parts[0], sep) == None;
      }
    } else {
      var m := if maxsplit > 0 then maxsplit - 1 else maxsplit;
      JoinSplit(parts[1..], sep, m);
      SplitOffToken(parts[0], Join(parts[1..], sep), sep, maxsplit);
      assert parts == [parts[0]] + parts[1..];
    }
  }

  /** The telemetry sample of the simulator's manual, as `tests/test_parse.py` writes it, field by field. */
  const SampleObjectFields: seq<seq<char>> :=
    ["b", "-220.000", "750.000", "12.000", "m", "-240.000", "812.000", "90.0", "9.100", ";"]
  const SampleObjects: seq<char> := Join(SampleObjectFields, ' ')
  const SampleLeading: seq<seq<char>> := ["T", "3450", "aL", "-234.040", "811.100", "47.5", "8.450"]
  const SampleFieldList: seq<seq<char>> := SampleLeading + [SampleObjects]
  const SampleTelemetry: seq<char> := Join(SampleFieldList, ' ')

  lemma SampleObjectsSplit()
    ensures Split(SampleObjects, ' ', -1) == SampleObjectFields
  {
    var objectFields := SampleObjectFields;
    assert ' ' !in objectFields[0] && ' ' !in objectFields[1] && ' ' !in objectFields[2];
    assert ' ' !in objectFields[3] && ' ' !in objectFields[4] && ' ' !in objectFields[5];
    assert ' ' !in objectFields[6] && ' ' !in objectFields[7] && ' ' !in objectFields[8];
    assert ' ' !in objectFields[9];
    JoinSplit(objectFields, ' ', -1);
  }

  /** The object field of the sample opens with a boulder, on which the object loop is stuck. */
  lemma SampleObjectsAreStuck(toFloat: seq<char> -> Option<real>)
    ensures ObjectField(SampleObjects, toFloat) == Err(Stuck("b"))
  {
    SampleObjectsSplit();
    assert SampleObjects != [] by {
      assert |SampleObjects| >= |SampleObjectFields[0]|;
    }
  }

  /**
   * A telemetry line built from eight space-free leading fields parses as far
   * as its object field, and fails with that field's error.
   */
  lemma JoinedTelemetryError(parts: seq<seq<char>>, toInt: seq<char> -> Option<int>,
                             toFloat: seq<char> -> Option<real>, e: ParseError)
    requires |parts| == 8 && parts[0] == "T"
    requires forall k :: 0 <= k < 7 ==> ' ' !in parts[k]
    requires IntOf(toInt, parts[1]).Ok? && |parts[2]| >= 2 && Floats(toFloat, parts[3..7]).Ok?
    requires ObjectField(parts[7], toFloat) == Err(e)
    ensures Parse(Join(parts, ' '), toInt, toFloat) == Err(e)
  {
    JoinSplit(parts, ' ', 7);
    var data := Join(parts, ' ');
    assert data == parts[0] + [' '] + Join(parts[1..], ' ');
    assert data[0] == 'T';
    assert Padded(parts, 8) == parts;
  }

  /** The leading fields of the sample are free of spaces. */
  lemma SampleLeadingFields()
    ensures |SampleLeading| == 7 && SampleLeading[0] == "T" && SampleLeading[1] == "3450"
    ensures |SampleLeading[2]| >= 2
    ensures SampleLeading[3..7] == ["-234.040", "811.100", "47.5", "8.450"]
    ensures forall k :: 0 <= k < 7 ==> ' ' !in SampleLeading[k]
  {
    var parts := SampleLeading;
    assert ' ' !in parts[0] && ' ' !in parts[1] && ' ' !in parts[2] && ' ' !in parts[3];
    assert ' ' !in parts[4] && ' ' !in parts[5] && ' ' !in parts[6];
  }

  /** Four tokens that each convert are converted together. */
  lemma FourFloats(toFloat: seq<char> -> Option<real>, a: seq<char>, b: seq<char>, c: seq<char>, d: seq<char>)
    requires toFloat(a).Some? && toFloat(b).Some? && toFloat(c).Some? && toFloat(d).Some?
    ensures Floats(toFloat, [a, b, c, d]).Ok?
  {
    var tokens := [a, b, c, d];
    assert forall k :: 0 <= k < |tokens| ==> toFloat(tokens[k]).Some?;
  }

  /**
   * The sample lists a boulder before anything else, so the object loop is
   * stuck on its `b` token.
   */
  lemma SampleTelemetryIsStuck(toInt: seq<char> -> Option<int>, toFloat: seq<char> -> Option<real>)
    requires toInt("3450").Some?
    requires toFloat("-234.040").Some? && toFloat("811.100").Some?
    requires toFloat("47.5").Some? && toFloat("8.450").Some?
    ensures Parse(SampleTelemetry, toInt, toFloat) == Err(Stuck("b"))
  {
    SampleObjectsAreStuck(toFloat);
    SampleLeadingFields();
    FourFloats(toFloat, "-234.040", "811.100", "47.5", "8.450");
    var parts := SampleFieldList;
    assert parts[..7] == SampleLeading && parts[3..7] == SampleLeading[3..7] && parts[7] == SampleObjects;
    assert forall k :: 0 <= k < 7 ==> parts[k] == SampleLeading[k];
    JoinedTelemetryError(parts, toInt, toFloat, Stuck("b"));
  }
}
