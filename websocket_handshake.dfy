/**
 * The opening handshake text of `WebSocketUtils` and `WebSocketServer`: the HTTP/1.1
 * header-field parser `parse_headers` (a simplified section 3.2 of RFC 7230), the upgrade
 * check of `handleWebSocketClient` and the server response `create_handshake_response`
 * (section 4.2.2 of RFC 6455). Header names are compared case-sensitively, as in the
 * C++ `std::map<std::string, std::string>`.
 */
module WebSocketHandshake {
  import opened Wrappers

  // ----- std::string::find and std::getline -----

  /** `s.find(c, from)`: the first index at or after `from` holding `c`, or `|s|` for `npos`. */
  function FindFrom(s: string, c: char, from: nat): (i: nat)
    requires from <= |s|
    ensures from <= i <= |s|
    ensures i < |s| ==> s[i] == c
    decreases |s| - from
  {
    if from == |s| || s[from] == c then from else FindFrom(s, c, from + 1)
  }

  /** No character before the one `find` returns is `c`. */
  lemma {:induction false} FindFromSkips(s: string, c: char, from: nat)
    requires from <= |s|
    ensures forall k :: from <= k < FindFrom(s, c, from) ==> s[k] != c
    decreases |s| - from
  {
    if from < |s| && s[from] != c {
      FindFromSkips(s, c, from + 1);
    }
  }

  /**
   * The lines successive `std::getline` calls extract from `s`: each stops before a
   * '\n', which is consumed; a last line without '\n' is extracted too; once the input is
   * used up, `getline` fails.
   */
  function Lines(s: string): (ls: seq<string>)
    ensures ls == [] <==> s == []
    ensures |ls| <= |s|
    decreases |s|
  {
    if s == [] then []
    else
      var j := FindFrom(s, '\n', 0);
      [s[..j]] + if j == |s| then [] else Lines(s[j + 1..])
  }

  /** No extracted line holds the '\n' that ended it. */
  lemma {:induction false} LinesHaveNoNewlines(s: string)
    ensures NoNewlines(Lines(s))
    decreases |s|
  {
    if s != [] {
      var j := FindFrom(s, '\n', 0);
      var rest := if j == |s| then [] else Lines(s[j + 1..]);
      FindFromSkips(s, '\n', 0);
      assert '\n' !in s[..j];
      if j < |s| {
        LinesHaveNoNewlines(s[j + 1..]);
      }
      assert Lines(s) == [s[..j]] + rest;
      assert ([s[..j]] + rest)[1..] == rest;
    }
  }

  /** None of the lines holds a '\n'. */
  predicate NoNewlines(ls: seq<string>)
  {
    ls == [] || ('\n' !in ls[0] && NoNewlines(ls[1..]))
  }

  lemma {:induction false} NoNewlinesAppend(a: seq<string>, b: seq<string>)
    requires NoNewlines(a) && NoNewlines(b)
    ensures NoNewlines(a + b)
  {
    if a == [] {
      assert a + b == b;
    } else {
      assert (a + b)[1..] == a[1..] + b;
      NoNewlinesAppend(a[1..], b);
    }
  }

  /** The text of some lines, each followed by '\n'. */
  function Join(ls: seq<string>): (s: string)
  {
    if ls == [] then [] else ls[0] + "\n" + Join(ls[1..])
  }

  /** `Join` of a first line and more lines. */
  lemma JoinCons(l: string, ls: seq<string>)
    ensures Join([l] + ls) == l + "\n" + Join(ls)
  {
    assert ([l] + ls)[1..] == ls;
  }

  /**
   * `getline` gives back the lines that were joined, when none of them holds a '\n', and
   * then goes on with what follows them.
   */
  lemma {:induction false} LinesOfJoin(ls: seq<string>, rest: string)
    requires NoNewlines(ls)
    ensures Lines(Join(ls) + rest) == ls + Lines(rest)
  {
    if ls == [] {
      assert Join(ls) + rest == rest;
    } else {
      var l, tail := ls[0], Join(ls[1..]) + rest;
      calc {
        Lines(Join(ls) + rest);
        { JoinThen(ls, rest); }
        Lines(l + (['\n'] + tail));
        { LinesAfterLine(l, tail); }
        [l] + Lines(tail);
        { LinesOfJoin(ls[1..], rest); }
        [l] + (ls[1..] + Lines(rest));
        { assert ls == [l] + ls[1..]; }
        ls + Lines(rest);
      }
    }
  }

  lemma JoinThen(ls: seq<string>, rest: string)
    requires ls != []
    ensures Join(ls) + rest == ls[0] + (['\n'] + (Join(ls[1..]) + rest))
  {
  }

  /** `getline` extracts a line without '\n' that is followed by '\n', and goes on after it. */
  lemma LinesAfterLine(l: string, tail: string)
    requires '\n' !in l
    ensures Lines(l + (['\n'] + tail)) == [l] + Lines(tail)
  {
    var s := l + (['\n'] + tail);
    FindFromAfter(l, ['\n'] + tail, '\n');
    assert s[..|l|] == l;
    assert s[|l| + 1..] == tail;
  }

  /** One `std::getline(stream, line)` from position `pos`: scans up to the next '\n' and steps over it. */
  method ReadLine(s: string, pos: nat) returns (ok: bool, line: string, next: nat)
    requires pos <= |s|
    ensures ok <==> pos < |s|
    ensures ok ==> pos < next <= |s| && Lines(s[pos..]) == [line] + Lines(s[next..])
    ensures !ok ==> Lines(s[pos..]) == []
  {
    if pos == |s| {
      return false, "", pos;
    }
    var j := pos;
    line := "";
    while j < |s| && s[j] != '\n'
      invariant pos <= j <= |s|
      invariant line == s[pos..j]
      invariant forall k :: pos <= k < j ==> s[k] != '\n'
    {
      line := line + [s[j]];
      j := j + 1;
    }
    ok := true;
    next := if j < |s| then j + 1 else j;
    LinesAt(s, pos, j);
  }

  /** The first line from `pos` ends at the first '\n' at or after it, at `j`. */
  lemma LinesAt(s: string, pos: nat, j: nat)
    requires pos < |s| && pos <= j <= |s|
    requires forall k :: pos <= k < j ==> s[k] != '\n'
    requires j < |s| ==> s[j] == '\n'
    ensures j < |s| ==> Lines(s[pos..]) == [s[pos..j]] + Lines(s[j + 1..])
    ensures j == |s| ==> Lines(s[pos..]) == [s[pos..j]] + Lines(s[j..])
  {
    var t := s[pos..];
    if j < |s| {
      FindFromAt(t, '\n', 0, j - pos);
      assert t[j - pos + 1..] == s[j + 1..];
    } else {
      assert FindFrom(t, '\n', 0) == |t|;
    }
    assert t[..j - pos] == s[pos..j];
  }

  // ----- Trimming -----

  /** The characters `parse_headers` strips in front of a name or value: `" \t"`. */
  const LEADING: set<char> := {' ', '\t'}

  /** The characters `parse_headers` strips at the end of a name or value: `" \t\r\n"`. */
  const TRAILING: set<char> := {' ', '\t', '\r', '\n'}

  /** `find_first_not_of(chars)`: the first index whose character is not in `chars`, or `|s|` for `npos`. */
  function FirstNotOf(s: string, chars: set<char>): (i: nat)
    ensures i <= |s|
    ensures i < |s| ==> s[i] !in chars
  {
    if s == [] || s[0] !in chars then 0 else 1 + FirstNotOf(s[1..], chars)
  }

  /** Every character before the one `find_first_not_of` finds is in the set. */
  lemma {:induction false} FirstNotOfSkips(s: string, chars: set<char>)
    ensures forall k :: 0 <= k < FirstNotOf(s, chars) ==> s[k] in chars
  {
    if s != [] && s[0] in chars {
      FirstNotOfSkips(s[1..], chars);
    }
  }

  /** `find_last_not_of(chars)`: the last index whose character is not in `chars`, or -1 for `npos`. */
  function LastNotOf(s: string, chars: set<char>): (i: int)
    ensures -1 <= i < |s|
    ensures i >= 0 ==> s[i] !in chars
  {
    if s == [] then -1
    else if s[|s| - 1] !in chars then |s| - 1
    else LastNotOf(s[..|s| - 1], chars)
  }

  /** Every character after the one `find_last_not_of` finds is in the set. */
  lemma {:induction false} LastNotOfSkips(s: string, chars: set<char>)
    ensures forall k :: LastNotOf(s, chars) < k < |s| ==> s[k] in chars
  {
    if s != [] && s[|s| - 1] in chars {
      var init := s[..|s| - 1];
      LastNotOfSkips(init, chars);
      assert forall k :: 0 <= k < |init| ==> init[k] == s[k];
    }
  }

  /** `s.erase(0, s.find_first_not_of(" \t"))`: drops the leading spaces and tabs. */
  function TrimLeft(s: string): (r: string)
    ensures |r| <= |s|
    ensures r != [] ==> r[0] !in LEADING
  {
    s[FirstNotOf(s, LEADING)..]
  }

  /** `s.erase(s.find_last_not_of(" \t\r\n") + 1)`: drops the trailing spaces, tabs, CRs and LFs (all of `s` when `npos + 1` wraps to 0). */
  function TrimRight(s: string): (r: string)
    ensures |r| <= |s|
    ensures r != [] ==> r[|r| - 1] !in TRAILING
  {
    s[..LastNotOf(s, TRAILING) + 1]
  }

  /** Both trims, in the order `parse_headers` applies them: never longer, and never ending in space, tab, CR or LF. */
  function Trim(s: string): (r: string)
    ensures |r| <= |s|
    ensures r != [] ==> r[|r| - 1] !in TRAILING
  {
    TrimRight(TrimLeft(s))
  }

  /** No leading space or tab and no trailing space, tab, CR or LF: what `Trim` leaves unchanged. */
  predicate Trimmed(s: string)
  {
    s == [] || (s[0] !in LEADING && s[|s| - 1] !in TRAILING)
  }

  /** `Trim` returns a trimmed string. */
  lemma TrimTrims(s: string)
    ensures Trimmed(Trim(s))
  {
    var l := TrimLeft(s);
    var r := TrimRight(l);
    if r != [] {
      assert r[0] == l[0];
    }
  }

  /** `Trim` leaves a trimmed string as it is. */
  lemma TrimKeepsTrimmed(s: string)
    requires Trimmed(s)
    ensures Trim(s) == s
  {
    if s != [] {
      assert FirstNotOf(s, LEADING) == 0;
      assert TrimLeft(s) == s;
      assert LastNotOf(s, TRAILING) == |s| - 1;
    }
  }

  // ----- parse_headers -----

  /** The name and value of a field line: split at the first ':' and trimmed; none without ':'. The ':' itself is in neither. */
  function FieldOf(line: string): (r: Option<(string, string)>)
    ensures r.Some? ==> |r.value.0| + |r.value.1| < |line|
  {
    var colon := FindFrom(line, ':', 0);
    if colon == |line| then None else Some((Trim(line[..colon]), Trim(line[colon + 1..])))
  }

  /** A line is skipped exactly when it holds no ':'. */
  lemma FieldOfNone(line: string)
    ensures FieldOf(line).None? <==> ':' !in line
  {
    var colon := FindFrom(line, ':', 0);
    FindFromSkips(line, ':', 0);
    if colon < |line| {
      assert line[colon] == ':';
    } else {
      assert forall k :: 0 <= k < |line| ==> line[k] != ':';
    }
  }

  /** A field name holds no ':', since the split is at the first one, and name and value are trimmed. */
  lemma FieldOfTrimmed(line: string)
    ensures FieldOf(line).Some? ==>
      var (name, value) := FieldOf(line).value;
      ':' !in name && Trimmed(name) && Trimmed(value)
  {
    var colon := FindFrom(line, ':', 0);
    if colon < |line| {
      var raw, rest := line[..colon], line[colon + 1..];
      FindFromSkips(line, ':', 0);
      assert ':' !in raw;
      TrimmedParts(raw, rest);
    }
  }

  lemma TrimmedParts(raw: string, rest: string)
    requires ':' !in raw
    ensures ':' !in Trim(raw) && Trimmed(Trim(raw)) && Trimmed(Trim(rest))
  {
    TrimKeepsOut(raw, ':');
    TrimTrims(raw);
    TrimTrims(rest);
  }

  /** Trimming only removes characters, so a character absent before is absent after. */
  lemma TrimKeepsOut(s: string, c: char)
    requires c !in s
    ensures c !in Trim(s)
  {
  }

  /** One iteration of the loop of `parse_headers`: `headers[key] = value` for a field line. */
  function AddField(headers: map<string, string>, line: string): map<string, string>
  {
    var field := FieldOf(line);
    if field.None? then headers else headers[field.value.0 := field.value.1]
  }

  /** The loop of `parse_headers` over some lines. */
  function Collect(headers: map<string, string>, lines: seq<string>): map<string, string>
    decreases lines
  {
    if lines == [] then headers else Collect(AddField(headers, lines[0]), lines[1..])
  }

  /** The lines before the first line equal to "\r", where the loop of `parse_headers` stops. */
  function TakeUntilBlank(lines: seq<string>): (r: seq<string>)
    ensures |r| <= |lines| && r == lines[..|r|]
    ensures forall i :: 0 <= i < |r| ==> r[i] != "\r"
    ensures |r| < |lines| ==> lines[|r|] == "\r"
  {
    if lines == [] || lines[0] == "\r" then [] else [lines[0]] + TakeUntilBlank(lines[1..])
  }

  /**
   * What `parse_headers(request)` returns: the first line is skipped, then the field lines up to
   * "\r" are collected. Every name and value in it is trimmed, and no name holds a ':'.
   */
  function HeaderMap(request: string): (headers: map<string, string>)
    ensures request == [] ==> headers == map[]
    ensures TrimmedFields(headers)
  {
    var ls := Lines(request);
    if ls == [] then map[]
    else
      CollectKeepsTrimmed(map[], TakeUntilBlank(ls[1..]));
      Collect(map[], TakeUntilBlank(ls[1..]))
  }

  /** The names and values a header map can hold after `parse_headers`. */
  predicate TrimmedFields(headers: map<string, string>)
  {
    forall name :: name in headers ==> ':' !in name && Trimmed(name) && Trimmed(headers[name])
  }

  /** Storing field lines keeps every name and value trimmed and every name free of ':'. */
  lemma {:induction false} CollectKeepsTrimmed(headers: map<string, string>, lines: seq<string>)
    requires TrimmedFields(headers)
    ensures TrimmedFields(Collect(headers, lines))
    decreases lines
  {
    if lines != [] {
      FieldOfTrimmed(lines[0]);
      CollectKeepsTrimmed(AddField(headers, lines[0]), lines[1..]);
    }
  }

  /** `WebSocketUtils::parse_headers`: reads line by line, splits and trims each field line in place and stores it. */
  method ParseHeaders(request: string) returns (headers: map<string, string>)
    ensures headers == HeaderMap(request)
  {
    headers := map[];
    var ok, line, pos := ReadLine(request, 0);
    assert request[0..] == request;
    if !ok {
      return;
    }
    assert Lines(request)[1..] == Lines(request[pos..]);
    while true
      invariant pos <= |request|
      invariant HeaderMap(request) == Collect(headers, TakeUntilBlank(Lines(request[pos..])))
      decreases |request| - pos
    {
      var next;
      ok, line, next := ReadLine(request, pos);
      if !ok || line == "\r" {
        if ok {
          BlankLineStops(Lines(request[next..]));
        }
        assert TakeUntilBlank(Lines(request[pos..])) == [];
        break;
      }
      ghost var before := headers;
      var field := SplitField(line);
      StoreField(before, line, field);
      if field.Some? {
        headers := headers[field.value.0 := field.value.1];
      }
      CollectFieldLine(before, line, Lines(request[next..]));
      pos := next;
    }
  }

  /** The body of the loop of `parse_headers`: finds the first ':' and trims the key and the value in place. */
  method SplitField(line: string) returns (field: Option<(string, string)>)
    ensures field == FieldOf(line)
  {
    var colon := FindFrom(line, ':', 0);
    if colon == |line| {
      return None;
    }
    var key := line[..colon];
    var value := line[colon + 1..];
    ghost var rawKey, rawValue := key, value;
    key := key[FirstNotOf(key, LEADING)..];
    key := key[..LastNotOf(key, TRAILING) + 1];
    assert key == Trim(rawKey);
    value := value[FirstNotOf(value, LEADING)..];
    value := value[..LastNotOf(value, TRAILING) + 1];
    assert value == Trim(rawValue);
    return Some((key, value));
  }

  /** Storing the field `SplitField` found is one step of `AddField`. */
  lemma StoreField(headers: map<string, string>, line: string, field: Option<(string, string)>)
    requires field == FieldOf(line)
    ensures AddField(headers, line) == if field.None? then headers else headers[field.value.0 := field.value.1]
  {
  }

  /** The loop stops at a line equal to "\r". */
  lemma BlankLineStops(rest: seq<string>)
    ensures TakeUntilBlank(["\r"] + rest) == []
  {
  }

  /** The loop goes on past a line other than "\r" by storing its field. */
  lemma CollectFieldLine(headers: map<string, string>, line: string, rest: seq<string>)
    requires line != "\r"
    ensures Collect(headers, TakeUntilBlank([line] + rest)) == Collect(AddField(headers, line), TakeUntilBlank(rest))
  {
    assert ([line] + rest)[1..] == rest;
    var t := TakeUntilBlank(rest);
    assert TakeUntilBlank([line] + rest) == [line] + t;
    assert ([line] + t)[1..] == t;
  }

  /** The loop folds left: the last line is applied last. */
  lemma {:induction false} CollectAppend(headers: map<string, string>, lines: seq<string>, line: string)
    ensures Collect(headers, lines + [line]) == AddField(Collect(headers, lines), line)
    decreases lines
  {
    if lines != [] {
      assert (lines + [line])[1..] == lines[1..] + [line];
      CollectAppend(AddField(headers, lines[0]), lines[1..], line);
    }
  }

  /** A later line with the same field name overwrites the value of an earlier one. */
  lemma LaterFieldWins(headers: map<string, string>, lines: seq<string>, line: string, name: string, value: string)
    requires FieldOf(line) == Some((name, value))
    ensures name in Collect(headers, lines + [line]) && Collect(headers, lines + [line])[name] == value
  {
    CollectAppend(headers, lines, line);
  }

  /** A line without ':' adds nothing, and a field line sets exactly its own name. */
  lemma AddFieldEffect(headers: map<string, string>, line: string)
    ensures ':' !in line ==> AddField(headers, line) == headers
    ensures ':' in line ==>
      && FieldOf(line).Some?
      && FieldOf(line).value.0 in AddField(headers, line)
      && forall k :: k != FieldOf(line).value.0 ==> (k in AddField(headers, line) <==> k in headers)
  {
    FieldOfNone(line);
  }

  // ----- Requests built from fields -----

  /** A field line as a client sends it: `name: value` and the CR of the CRLF. */
  function FieldLine(field: (string, string)): string
  {
    field.0 + ": " + field.1 + "\r"
  }

  function FieldLines(fields: seq<(string, string)>): (ls: seq<string>)
    ensures |ls| == |fields|
    ensures forall i :: 0 <= i < |fields| ==> ls[i] == FieldLine(fields[i])
  {
    if fields == [] then [] else [FieldLine(fields[0])] + FieldLines(fields[1..])
  }

  /** A field that `parse_headers` reads back as it is: trimmed, a name without ':', and no '\n'. */
  predicate WellFormedField(field: (string, string))
  {
    && Trimmed(field.0) && Trimmed(field.1)
    && ':' !in field.0 && '\n' !in field.0 && '\n' !in field.1
  }

  /** The map a sequence of fields gives when each one is stored in turn. */
  function StoreAll(headers: map<string, string>, fields: seq<(string, string)>): map<string, string>
    decreases fields
  {
    if fields == [] then headers else StoreAll(headers[fields[0].0 := fields[0].1], fields[1..])
  }

  /** The head of an HTTP/1.1 request: the start line, the field lines and the empty line, each ended by CRLF. */
  function Request(startLine: string, fields: seq<(string, string)>): string
  {
    Join([startLine + "\r"] + FieldLines(fields) + ["\r"])
  }

  /** A well-formed field line splits back into its name and value. */
  lemma FieldOfFieldLine(field: (string, string))
    requires ':' !in field.0 && Trimmed(field.0) && Trimmed(field.1)
    ensures FieldOf(FieldLine(field)) == Some(field)
  {
    FieldLineSplit(field.0, field.1);
  }

  /** The name before the first ':' of a field line, and the value after it, trim back to themselves. */
  lemma FieldLineSplit(name: string, value: string)
    requires ':' !in name && Trimmed(name) && Trimmed(value)
    ensures var line := FieldLine((name, value));
      var colon := FindFrom(line, ':', 0);
      colon < |line| && Trim(line[..colon]) == name && Trim(line[colon + 1..]) == value
  {
    FieldLineParts(name, value);
    TrimKeepsTrimmed(name);
    TrimFieldValue(value);
  }

  /** The first ':' of a field line follows the name, and a space, the value and a CR follow it. */
  lemma FieldLineParts(name: string, value: string)
    requires ':' !in name
    ensures var line := FieldLine((name, value));
      var colon := FindFrom(line, ':', 0);
      colon == |name| && line[..colon] == name && line[colon + 1..] == [' '] + (value + ['\r'])
  {
    var line := FieldLine((name, value));
    var tail := [':'] + ([' '] + (value + ['\r']));
    assert line == name + tail;
    FindFromAfter(name, tail, ':');
  }

  /** The text after the ':' of a field line trims to the value. */
  lemma TrimFieldValue(value: string)
    requires Trimmed(value)
    ensures Trim([' '] + (value + ['\r'])) == value
  {
    TrimLeftSkips(' ', value + ['\r']);
    TrimLeftKeeps(value + ['\r']);
    TrimRightSkips(value, '\r');
    TrimKeepsTrimmed(value);
    TrimLeftKeeps(value);
  }

  /** `find` of a character absent from a prefix returns the length of the prefix when the rest starts with it. */
  lemma FindFromAfter(prefix: string, rest: string, c: char)
    requires c !in prefix && rest != [] && rest[0] == c
    ensures FindFrom(prefix + rest, c, 0) == |prefix|
  {
    var s := prefix + rest;
    FindFromAt(s, c, 0, |prefix|);
  }

  lemma {:induction false} FindFromAt(s: string, c: char, from: nat, i: nat)
    requires from <= i < |s| && s[i] == c
    requires forall k :: from <= k < i ==> s[k] != c
    ensures FindFrom(s, c, from) == i
    decreases i - from
  {
    if from < i {
      FindFromAt(s, c, from + 1, i);
    }
  }

  /** A leading space or tab is dropped. */
  lemma TrimLeftSkips(c: char, s: string)
    requires c in LEADING
    ensures TrimLeft([c] + s) == TrimLeft(s)
  {
    assert ([c] + s)[1..] == s;
  }

  /** A string that does not start with a space or tab keeps its front. */
  lemma TrimLeftKeeps(s: string)
    requires s == [] || s[0] !in LEADING
    ensures TrimLeft(s) == s
  {
  }

  /** A trailing space, tab, CR or LF is dropped. */
  lemma TrimRightSkips(s: string, c: char)
    requires c in TRAILING
    ensures TrimRight(s + [c]) == TrimRight(s)
  {
    assert (s + [c])[..|s|] == s;
  }

  /** Collecting the field lines stores the fields in order. */
  lemma {:induction false} CollectFieldLines(headers: map<string, string>, fields: seq<(string, string)>)
    requires forall i :: 0 <= i < |fields| ==> WellFormedField(fields[i])
    ensures Collect(headers, FieldLines(fields)) == StoreAll(headers, fields)
    decreases fields
  {
    if fields != [] {
      FieldOfFieldLine(fields[0]);
      assert FieldLines(fields)[1..] == FieldLines(fields[1..]);
      CollectFieldLines(headers[fields[0].0 := fields[0].1], fields[1..]);
    }
  }

  /** The lines of a request head hold no '\n', and no field line is the blank "\r". */
  lemma RequestLines(startLine: string, fields: seq<(string, string)>)
    requires '\n' !in startLine
    requires forall i :: 0 <= i < |fields| ==> WellFormedField(fields[i])
    ensures NoNewlines([startLine + "\r"] + FieldLines(fields) + ["\r"])
    ensures forall i :: 0 <= i < |fields| ==> FieldLines(fields)[i] != "\r"
  {
    var fl := FieldLines(fields);
    FieldLinesNoNewlines(fields);
    assert NoNewlines([startLine + "\r"]) by {
      assert [startLine + "\r"][1..] == [];
    }
    assert NoNewlines(["\r"]) by {
      assert ["\r"][1..] == [];
    }
    NoNewlinesAppend([startLine + "\r"], fl);
    NoNewlinesAppend([startLine + "\r"] + fl, ["\r"]);
    forall i | 0 <= i < |fl|
      ensures fl[i] != "\r"
    {
      assert |fl[i]| >= 3;
    }
  }

  lemma {:induction false} FieldLinesNoNewlines(fields: seq<(string, string)>)
    requires forall i :: 0 <= i < |fields| ==> WellFormedField(fields[i])
    ensures NoNewlines(FieldLines(fields))
  {
    if fields != [] {
      var (name, value) := fields[0];
      assert WellFormedField(fields[0]);
      assert FieldLine(fields[0]) == name + ([':', ' '] + value + ['\r']);
      assert FieldLines(fields)[1..] == FieldLines(fields[1..]);
      FieldLinesNoNewlines(fields[1..]);
    }
  }

  /**
   * `parse_headers` reads back the fields of a request head, the later of two equal names
   * winning, and ignores whatever follows the empty line.
   */
  lemma HeaderMapOfRequest(startLine: string, fields: seq<(string, string)>, body: string)
    requires '\n' !in startLine
    requires forall i :: 0 <= i < |fields| ==> WellFormedField(fields[i])
    ensures HeaderMap(Request(startLine, fields) + body) == StoreAll(map[], fields)
  {
    var fl := FieldLines(fields);
    var ls := [startLine + "\r"] + fl + ["\r"];
    var request := Request(startLine, fields) + body;
    RequestLines(startLine, fields);
    LinesOfJoin(ls, body);
    DropStartLine(startLine + "\r", fl, Lines(body));
    calc {
      HeaderMap(request);
      Collect(map[], TakeUntilBlank(Lines(request)[1..]));
      Collect(map[], TakeUntilBlank(fl + ["\r"] + Lines(body)));
      { TakeFieldLines(fl, Lines(body)); }
      Collect(map[], fl);
      { CollectFieldLines(map[], fields); }
      StoreAll(map[], fields);
    }
  }

  lemma DropStartLine(start: string, fl: seq<string>, rest: seq<string>)
    ensures ([start] + fl + ["\r"] + rest)[1..] == fl + ["\r"] + rest
  {
  }

  lemma {:induction false} TakeFieldLines(fl: seq<string>, rest: seq<string>)
    requires forall i :: 0 <= i < |fl| ==> fl[i] != "\r"
    ensures TakeUntilBlank(fl + ["\r"] + rest) == fl
  {
    if fl == [] {
      assert fl + ["\r"] + rest == ["\r"] + rest;
    } else {
      assert (fl + ["\r"] + rest)[1..] == fl[1..] + ["\r"] + rest;
      TakeFieldLines(fl[1..], rest);
    }
  }

  // ----- The upgrade check and the response -----

  /** `headers[name]`: a missing name reads as the empty string. */
  function Lookup(headers: map<string, string>, name: string): string
  {
    if name in headers then headers[name] else ""
  }

  /** `s.find(t) != npos` */
  predicate Contains(s: string, t: string)
  {
    exists i: nat | i <= |s| :: OccursAt(s, t, i)
  }

  /** `t` occurs in `s` at index `i`. */
  predicate OccursAt(s: string, t: string, i: nat)
  {
    i + |t| <= |s| && s[i..i + |t|] == t
  }

  /**
   * The check of `handleWebSocketClient`: `Upgrade` is exactly "websocket" and `Connection`
   * contains "Upgrade". A missing field reads as the empty string, which passes neither test,
   * so only a request with both fields is accepted.
   */
  predicate IsUpgradeRequest(headers: map<string, string>): (accepted: bool)
    ensures accepted ==> "Upgrade" in headers && headers["Upgrade"] == "websocket"
    ensures accepted ==> "Connection" in headers && Contains(headers["Connection"], "Upgrade")
  {
    Lookup(headers, "Upgrade") == "websocket" && Contains(Lookup(headers, "Connection"), "Upgrade")
  }

  /** Field names are case-sensitive: a lower-case `upgrade` field does not count. */
  lemma LowerCaseUpgradeRejected()
    ensures !IsUpgradeRequest(map["upgrade" := "websocket", "Connection" := "Upgrade"])
  {
    assert "Upgrade" != "upgrade";
  }

  /** A request whose last `Upgrade` field is "websocket" and whose last `Connection` field contains "Upgrade" is accepted. */
  lemma UpgradeRequestAccepted(startLine: string, fields: seq<(string, string)>, connection: string, i: nat)
    requires '\n' !in startLine
    requires forall i :: 0 <= i < |fields| ==> WellFormedField(fields[i])
    requires WellFormedField(("Connection", connection)) && OccursAt(connection, "Upgrade", i)
    ensures var request := Request(startLine, fields + [("Upgrade", "websocket"), ("Connection", connection)]);
      IsUpgradeRequest(HeaderMap(request))
  {
    var last := [("Upgrade", "websocket"), ("Connection", connection)];
    var all := fields + last;
    assert WellFormedField(("Upgrade", "websocket"));
    assert forall i :: 0 <= i < |all| ==> WellFormedField(all[i]);
    HeaderMapOfRequest(startLine, all, "");
    assert Request(startLine, all) + "" == Request(startLine, all);
    StoreAllAppend(map[], fields, last);
    var m := StoreAll(map[], fields);
    StoreTwo(m, last[0], last[1]);
    var h := m["Upgrade" := "websocket"]["Connection" := connection];
    assert "Upgrade" != "Connection";
    assert Lookup(h, "Upgrade") == "websocket";
    assert Lookup(h, "Connection") == connection;
  }

  lemma StoreTwo(headers: map<string, string>, a: (string, string), b: (string, string))
    ensures StoreAll(headers, [a, b]) == headers[a.0 := a.1][b.0 := b.1]
  {
    calc {
      StoreAll(headers, [a, b]);
      { assert [a, b][1..] == [b]; }
      StoreAll(headers[a.0 := a.1], [b]);
      { assert [b][1..] == []; }
      StoreAll(headers[a.0 := a.1][b.0 := b.1], []);
    }
  }

  lemma {:induction false} StoreAllAppend(headers: map<string, string>, a: seq<(string, string)>, b: seq<(string, string)>)
    ensures StoreAll(headers, a + b) == StoreAll(StoreAll(headers, a), b)
    decreases a
  {
    if a == [] {
      assert a + b == b;
    } else {
      assert (a + b)[1..] == a[1..] + b;
      StoreAllAppend(headers[a[0].0 := a[0].1], a[1..], b);
    }
  }

  const STATUS_LINE: string := "HTTP/1.1 101 Switching Protocols"

  /** The literal text of the response up to the accept key (adjacent C++ literals are one string). */
  const RESPONSE_HEAD: string :=
    STATUS_LINE + "\r\n" + "Upgrade: websocket\r\n" + "Connection: Upgrade\r\n" + "Sec-WebSocket-Accept: "

  /** `WebSocketUtils::create_handshake_response(accept_key)` */
  function HandshakeResponse(acceptKey: string): (r: string)
    ensures |r| > |STATUS_LINE| + 2 && r[..|STATUS_LINE| + 2] == STATUS_LINE + "\r\n"
    ensures r[|r| - 4..] == "\r\n\r\n"
    ensures OccursAt(r, "Sec-WebSocket-Accept: " + acceptKey + "\r\n", 75)
  {
    RESPONSE_HEAD + acceptKey + "\r\n\r\n"
  }

  /** The response holds the accept-key line, as `find` would see it. */
  lemma ResponseHasAcceptKey(acceptKey: string)
    ensures Contains(HandshakeResponse(acceptKey), "Sec-WebSocket-Accept: " + acceptKey + "\r\n")
  {
    assert OccursAt(HandshakeResponse(acceptKey), "Sec-WebSocket-Accept: " + acceptKey + "\r\n", 75);
  }

  /** The three fields of the response, in the order it writes them. */
  function ResponseFields(acceptKey: string): seq<(string, string)>
  {
    [("Upgrade", "websocket"), ("Connection", "Upgrade"), ("Sec-WebSocket-Accept", acceptKey)]
  }

  /** The response is the head of a request whose start line is the status line. */
  lemma ResponseLayout(acceptKey: string)
    ensures HandshakeResponse(acceptKey) == Request(STATUS_LINE, ResponseFields(acceptKey))
  {
    var key := "Sec-WebSocket-Accept: ";
    var head := [STATUS_LINE + "\r", "Upgrade: websocket\r", "Connection: Upgrade\r"];
    var tail := [key + acceptKey + "\r", "\r"];
    ResponseFieldLines(acceptKey);
    assert [STATUS_LINE + "\r"] + FieldLines(ResponseFields(acceptKey)) + ["\r"] == head + tail;
    JoinAppend(head, tail);
    ResponseHeadText();
    ResponseTailText(acceptKey);
  }

  lemma ResponseFieldLines(acceptKey: string)
    ensures FieldLines(ResponseFields(acceptKey))
         == ["Upgrade: websocket\r", "Connection: Upgrade\r", "Sec-WebSocket-Accept: " + acceptKey + "\r"]
  {
    var fields := ResponseFields(acceptKey);
    assert FieldLines(fields) == [FieldLine(fields[0])] + FieldLines(fields[1..]);
    assert FieldLines(fields[1..]) == [FieldLine(fields[1])] + FieldLines(fields[2..]);
    assert FieldLines(fields[2..]) == [FieldLine(fields[2])];
    assert FieldLine(fields[0]) == "Upgrade: websocket\r";
    assert FieldLine(fields[1]) == "Connection: Upgrade\r";
    assert FieldLine(fields[2]) == "Sec-WebSocket-Accept: " + acceptKey + "\r" by {
      assert "Sec-WebSocket-Accept" + ": " == "Sec-WebSocket-Accept: ";
    }
  }

  lemma ResponseHeadText()
    ensures Join([STATUS_LINE + "\r", "Upgrade: websocket\r", "Connection: Upgrade\r"]) + "Sec-WebSocket-Accept: "
         == RESPONSE_HEAD
  {
    var head := [STATUS_LINE + "\r", "Upgrade: websocket\r", "Connection: Upgrade\r"];
    JoinCons(head[0], head[1..]);
    JoinCons(head[1], head[2..]);
    JoinCons(head[2], []);
    assert head[1..] == [head[1]] + head[2..];
    assert head[2..] == [head[2]] + [];
  }

  lemma ResponseTailText(acceptKey: string)
    ensures Join(["Sec-WebSocket-Accept: " + acceptKey + "\r", "\r"])
         == "Sec-WebSocket-Accept: " + (acceptKey + "\r\n\r\n")
  {
    var tail := ["Sec-WebSocket-Accept: " + acceptKey + "\r", "\r"];
    JoinCons(tail[0], tail[1..]);
    JoinCons(tail[1], []);
    assert tail[1..] == [tail[1]] + [];
  }

  /** `Join` of two runs of lines is the join of each. */
  lemma {:induction false} JoinAppend(a: seq<string>, b: seq<string>)
    ensures Join(a + b) == Join(a) + Join(b)
  {
    if a == [] {
      assert a + b == b;
    } else {
      assert (a + b)[1..] == a[1..] + b;
      JoinAppend(a[1..], b);
    }
  }

  /**
   * The response is itself a header block of the same shape: read with `parse_headers`,
   * it gives the three fields, and passes the upgrade check.
   */
  lemma ResponseHeaders(acceptKey: string)
    requires Trimmed(acceptKey) && '\n' !in acceptKey
    ensures HeaderMap(HandshakeResponse(acceptKey))
         == map["Upgrade" := "websocket", "Connection" := "Upgrade", "Sec-WebSocket-Accept" := acceptKey]
    ensures IsUpgradeRequest(HeaderMap(HandshakeResponse(acceptKey)))
  {
    var fields := ResponseFields(acceptKey);
    ResponseLayout(acceptKey);
    ResponseFieldsWellFormed(acceptKey);
    HeaderMapOfRequest(STATUS_LINE, fields, "");
    assert HandshakeResponse(acceptKey) + "" == HandshakeResponse(acceptKey);
    StoreResponseFields(acceptKey);
    ResponseMapUpgrade(acceptKey);
  }

  lemma ResponseMapUpgrade(acceptKey: string)
    ensures IsUpgradeRequest(map["Upgrade" := "websocket", "Connection" := "Upgrade", "Sec-WebSocket-Accept" := acceptKey])
  {
    var h := map["Upgrade" := "websocket", "Connection" := "Upgrade", "Sec-WebSocket-Accept" := acceptKey];
    assert Lookup(h, "Connection") == "Upgrade";
    assert OccursAt(Lookup(h, "Connection"), "Upgrade", 0);
  }

  lemma ResponseFieldsWellFormed(acceptKey: string)
    requires Trimmed(acceptKey) && '\n' !in acceptKey
    ensures forall i :: 0 <= i < |ResponseFields(acceptKey)| ==> WellFormedField(ResponseFields(acceptKey)[i])
  {
    assert WellFormedField(("Upgrade", "websocket"));
    assert WellFormedField(("Connection", "Upgrade"));
    assert WellFormedField(("Sec-WebSocket-Accept", acceptKey));
  }

  lemma StoreResponseFields(acceptKey: string)
    ensures StoreAll(map[], ResponseFields(acceptKey))
         == map["Upgrade" := "websocket", "Connection" := "Upgrade", "Sec-WebSocket-Accept" := acceptKey]
  {
    var fields := ResponseFields(acceptKey);
    assert fields[1..] == [fields[1], fields[2]];
    StoreTwo(map["Upgrade" := "websocket"], fields[1], fields[2]);
  }
}
