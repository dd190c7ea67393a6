/**
 Macro text (src/macros.rs): substituting arguments into a body, and splitting a
 parameter list. Quoting a list of segments and substituting gives back what the
 segments stand for; joining pieces and splitting gives back the pieces.
 */
module Macros {
  import opened Prelude

  type Bindings = seq<(string, string)>

  /** The invocation counter as digits, and whether `\1` to `\9` name arguments. */
  datatype Call = Call(bindings: Bindings, counter: string, positional: bool)

  predicate IsLetter(c: char) { 'a' <= c <= 'z' || 'A' <= c <= 'Z' }

  predicate IsDigit(c: char) { '0' <= c <= '9' }

  predicate IsParamStart(c: char) { IsLetter(c) || c == '_' }

  predicate IsParamCont(c: char) { IsLetter(c) || IsDigit(c) || c == '_' || c == '$' }

  predicate IsPositional(call: Call, c: char) { call.positional && IsDigit(c) && c != '0' }

  /** The first binding of a name. */
  function Lookup(b: Bindings, name: string): Option<string> {
    if b == [] then None else if b[0].0 == name then Some(b[0].1) else Lookup(b[1..], name)
  }

  /** A name stands for what binds it first, and for nothing exactly if nothing binds it. */
  lemma {:induction false} LookupIsFirst(b: Bindings, name: string, i: nat)
    requires i < |b| && b[i].0 == name && forall j :: 0 <= j < i ==> b[j].0 != name
    ensures Lookup(b, name) == Some(b[i].1)
  {
    if i > 0 {
      LookupIsFirst(b[1..], name, i - 1);
    }
  }

  lemma {:induction false} LookupIsNone(b: Bindings, name: string)
    ensures Lookup(b, name).None? <==> forall j :: 0 <= j < |b| ==> b[j].0 != name
  {
    if b != [] {
      LookupIsNone(b[1..], name);
      assert forall j :: 0 < j < |b| ==> b[j] == b[1..][j - 1];
    }
  }

  /** Where the run of name characters from `i` on ends. */
  function NameEnd(s: string, i: nat): (end: nat)
    requires i <= |s|
    ensures i <= end <= |s| && (end < |s| ==> !IsParamCont(s[end]))
    ensures forall k :: i <= k < end ==> IsParamCont(s[k])
    decreases |s| - i
  {
    if i == |s| || !IsParamCont(s[i]) then i else NameEnd(s, i + 1)
  }

  /** What follows a backslash: the text it stands for, and how much of `after` it takes. */
  datatype Escape = Escape(text: string, taken: nat)

  function EscapeOf(call: Call, after: string): (e: Escape)
    requires after != ""
    ensures 0 < e.taken <= |after|
  {
    var c := after[0];
    if c == '\\' then Escape("\\", 1)
    else if c == '@' then Escape(call.counter, 1)
    else if IsPositional(call, c) then
      var value := Lookup(call.bindings, [c]);
      Escape(if value.Some? then value.value else "", 1)
    else if c == '(' && |after| > 1 && after[1] == ')' then Escape("", 2)
    else if IsParamStart(c) then
      var end := NameEnd(after, 1);
      var value := Lookup(call.bindings, after[..end]);
      Escape(if value.Some? then value.value else "\\" + after[..end], end)
    else Escape("\\" + [c], 1)
  }

  /** `substitute_with`. */
  function Substitute(call: Call, body: string): string
    decreases |body|
  {
    if body == "" then ""
    else if body[0] != '\\' then [body[0]] + Substitute(call, body[1..])
    else if |body| == 1 then "\\"
    else
      var e := EscapeOf(call, body[1..]);
      e.text + Substitute(call, body[1 + e.taken..])
  }

  method NextBackslash(body: string, from: nat) returns (i: nat)
    requires from <= |body|
    ensures from <= i <= |body| && (i < |body| ==> body[i] == '\\')
    ensures forall k :: from <= k < i ==> body[k] != '\\'
  {
    i := from;
    while i < |body| && body[i] != '\\'
      invariant from <= i <= |body| && forall k :: from <= k < i ==> body[k] != '\\'
    {
      i := i + 1;
    }
  }

  lemma {:induction false} PlainText(call: Call, body: string, from: nat, i: nat)
    requires from <= i <= |body| && forall k :: from <= k < i ==> body[k] != '\\'
    ensures Substitute(call, body[from..]) == body[from..i] + Substitute(call, body[i..])
    decreases i - from
  {
    if from < i {
      assert body[from..][0] == body[from] && body[from..][1..] == body[from + 1..];
      PlainText(call, body, from + 1, i);
    }
  }

  lemma EscapeAt(call: Call, body: string, i: nat)
    requires i + 1 < |body| && body[i] == '\\'
    ensures var e := EscapeOf(call, body[i + 1..]);
            i + 1 + e.taken <= |body|
            && Substitute(call, body[i..]) == e.text + Substitute(call, body[i + 1 + e.taken..])
  {
    var rest := body[i..];
    assert rest[1..] == body[i + 1..];
    var e := EscapeOf(call, rest[1..]);
    assert rest[1 + e.taken..] == body[i + 1 + e.taken..];
  }

  lemma Regroup(a: string, b: string, c: string)
    ensures a + (b + c) == (a + b) + c
  {
  }

  /** Plain text, and the escape after it. */
  lemma TextThenEscape(call: Call, body: string, at: nat, i: nat)
    requires at <= i && i + 1 < |body| && body[i] == '\\' && forall k :: at <= k < i ==> body[k] != '\\'
    ensures var e := EscapeOf(call, body[i + 1..]);
            i + 1 + e.taken <= |body|
            && Substitute(call, body[at..]) == (body[at..i] + e.text) + Substitute(call, body[i + 1 + e.taken..])
  {
    PlainText(call, body, at, i);
    EscapeAt(call, body, i);
    var e := EscapeOf(call, body[i + 1..]);
    Regroup(body[at..i], e.text, Substitute(call, body[i + 1 + e.taken..]));
  }

  /** Plain text to the end, where there may be a backslash with nothing to escape. */
  lemma TextToEnd(call: Call, body: string, at: nat, i: nat)
    requires at <= i <= |body| <= i + 1 && (i < |body| ==> body[i] == '\\')
    requires forall k :: at <= k < i ==> body[k] != '\\'
    ensures Substitute(call, body[at..]) == body[at..] && Substitute(call, body[|body|..]) == ""
  {
    PlainText(call, body, at, i);
    assert body[|body|..] == "";
    assert body[at..i] + body[i..] == body[at..];
    if i < |body| { assert body[i..] == "\\"; }
  }

  /** The text up to the next backslash, and what that stands for. */
  method NextPiece(call: Call, body: string, at: nat) returns (text: string, next: nat)
    requires at < |body|
    ensures at < next <= |body|
    ensures Substitute(call, body[at..]) == text + Substitute(call, body[next..])
  {
    var i := NextBackslash(body, at);
    if i + 1 >= |body| {
      TextToEnd(call, body, at, i);
      return body[at..], |body|;
    }
    var piece: string, taken: nat := TakeEscape(call, body[i + 1..]);
    TextThenEscape(call, body, at, i);
    return body[at..i] + piece, i + 1 + taken;
  }

  /** The body with its references replaced. */
  method SubstituteWith(call: Call, body: string) returns (out: string)
    ensures out == Substitute(call, body)
  {
    out := "";
    var at: nat := 0;
    assert body[0..] == body;
    while at < |body|
      invariant at <= |body|
      invariant out + Substitute(call, body[at..]) == Substitute(call, body)
    {
      var text: string, next: nat := NextPiece(call, body, at);
      assert out + (text + Substitute(call, body[next..])) == (out + text) + Substitute(call, body[next..]);
      out := out + text;
      at := next;
    }
  }

  method TakeEscape(call: Call, after: string) returns (text: string, taken: nat)
    requires after != ""
    ensures Escape(text, taken) == EscapeOf(call, after)
  {
    var c := after[0];
    if c == '\\' {
      return "\\", 1;
    }
    if c == '@' {
      return call.counter, 1;
    }
    if IsPositional(call, c) {
      var value := Find(call.bindings, [c]);
      return if value.Some? then value.value else "", 1;
    }
    if c == '(' && |after| > 1 && after[1] == ')' {
      return "", 2;
    }
    if IsParamStart(c) {
      var end := NameEnd(after, 1);
      var value := Find(call.bindings, after[..end]);
      return if value.Some? then value.value else "\\" + after[..end], end;
    }
    return "\\" + [c], 1;
  }

  method Find(b: Bindings, name: string) returns (r: Option<string>)
    ensures r == Lookup(b, name)
  {
    var k: nat := 0;
    while k < |b|
      invariant k <= |b| && Lookup(b, name) == Lookup(b[k..], name)
    {
      assert b[k..][0] == b[k] && b[k..][1..] == b[k + 1..];
      if b[k].0 == name {
        return Some(b[k].1);
      }
      k := k + 1;
    }
    r := None;
  }

  // ---- quoting ----------------------------------------------------------------------

  /** What a body is made of. */
  datatype Segment =
    | Text(text: string)
    | Param(name: string)
    | Positional(digit: char)
    | Counter
    | Literal(c: char)

  predicate IsName(s: string) { s != "" && IsParamStart(s[0]) && forall k :: 1 <= k < |s| ==> IsParamCont(s[k]) }

  lemma LetterCharacters(c: char)
    ensures IsLetter(c) <==> c in "ABCDEFGHIJKLMNOPQRSTUVWXYZ" || c in "abcdefghijklmnopqrstuvwxyz"
  {
  }

  lemma DigitCharacters(call: Call, c: char)
    ensures IsDigit(c) <==> c == '0' || c in "123456789"
    ensures IsPositional(call, c) <==> call.positional && c in "123456789"
  {
  }

  /** A name is of letters, digits, `_` and `$`, and starts with one of the letters or `_`. */
  lemma NameCharacters(c: char)
    ensures IsParamStart(c) <==> IsLetter(c) || c == '_'
    ensures IsParamCont(c) <==> IsParamStart(c) || IsDigit(c) || c == '$'
  {
  }

  /** A segment as it can be written for this call. */
  predicate Writable(call: Call, s: Segment) {
    match s
    case Text(_) => true
    case Param(n) => IsName(n)
    case Positional(d) => IsPositional(call, d)
    case Counter => true
    case Literal(c) => c != '\\' && c != '@' && c != '(' && !IsParamStart(c) && !IsPositional(call, c)
  }

  function Doubled(text: string): string {
    if text == "" then ""
    else (if text[0] == '\\' then "\\\\" else [text[0]]) + Doubled(text[1..])
  }

  /** Text with its backslashes doubled, a name closed by the empty paste, and other escapes as they are. */
  function Quoted(s: Segment): string {
    match s
    case Text(t) => Doubled(t)
    case Param(n) => "\\" + n + "\\()"
    case Positional(d) => ['\\', d]
    case Counter => "\\@"
    case Literal(c) => ['\\', c]
  }

  /** What it stands for: a name that is no parameter, and an escape that means nothing, stay as written. */
  function Meaning(call: Call, s: Segment): string {
    match s
    case Text(t) => t
    case Param(n) => (match Lookup(call.bindings, n) case Some(v) => v case None => "\\" + n)
    case Positional(d) => (match Lookup(call.bindings, [d]) case Some(v) => v case None => "")
    case Counter => call.counter
    case Literal(c) => ['\\', c]
  }

  function QuoteAll(list: seq<Segment>): string {
    if list == [] then "" else Quoted(list[0]) + QuoteAll(list[1..])
  }

  function MeaningOfAll(call: Call, list: seq<Segment>): string {
    if list == [] then "" else Meaning(call, list[0]) + MeaningOfAll(call, list[1..])
  }

  lemma DoubledStep(call: Call, c: char, rest: string)
    ensures Substitute(call, (if c == '\\' then "\\\\" else [c]) + rest) == [c] + Substitute(call, rest)
  {
    if c == '\\' {
      var body := "\\\\" + rest;
      assert body[1..] == "\\" + rest && body[2..] == rest;
      assert EscapeOf(call, body[1..]) == Escape("\\", 1);
    } else {
      assert ([c] + rest)[1..] == rest;
    }
  }

  lemma Reassemble(text: string, after: string)
    requires text != ""
    ensures [text[0]] + (text[1..] + after) == text + after
  {
  }

  lemma {:induction false} DoubledIsText(call: Call, text: string, rest: string)
    ensures Substitute(call, Doubled(text) + rest) == text + Substitute(call, rest)
  {
    if text == "" {
      assert Doubled(text) + rest == rest;
    } else {
      DoubledIsText(call, text[1..], rest);
      DoubledStep(call, text[0], Doubled(text[1..]) + rest);
      var first := if text[0] == '\\' then "\\\\" else [text[0]];
      assert Doubled(text) + rest == first + (Doubled(text[1..]) + rest);
      Reassemble(text, Substitute(call, rest));
    }
  }

  lemma NameIsWhole(name: string, rest: string)
    requires IsName(name) && (rest == "" || !IsParamCont(rest[0]))
    ensures NameEnd(name + rest, 1) == |name|
  {
    var s := name + rest;
    assert forall k :: 1 <= k < |name| ==> IsParamCont(s[k]);
    if rest != "" { assert s[|name|] == rest[0]; }
  }

  /** A backslash that is followed by something. */
  lemma EscapeStep(call: Call, body: string, after: string)
    requires body == "\\" + after && after != ""
    ensures var e := EscapeOf(call, after);
            Substitute(call, body) == e.text + Substitute(call, after[e.taken..])
  {
    assert body[1..] == after;
    var e := EscapeOf(call, after);
    assert body[1 + e.taken..] == after[e.taken..];
  }

  /** A name that ends where it should. */
  lemma NameStep(call: Call, name: string, rest: string)
    requires IsName(name) && (rest == "" || !IsParamCont(rest[0]))
    ensures Substitute(call, "\\" + (name + rest)) == Meaning(call, Param(name)) + Substitute(call, rest)
  {
    var after := name + rest;
    NameIsWhole(name, rest);
    assert after[..|name|] == name && after[|name|..] == rest;
    EscapeStep(call, "\\" + after, after);
  }

  /** The empty paste is nothing. */
  lemma PasteStep(call: Call, rest: string)
    ensures Substitute(call, "\\()" + rest) == Substitute(call, rest)
  {
    var after := "()" + rest;
    assert "\\()" + rest == "\\" + after;
    EscapeStep(call, "\\" + after, after);
    assert after[2..] == rest;
    assert EscapeOf(call, after) == Escape("", 2);
  }

  lemma ParamIsValue(call: Call, name: string, rest: string)
    requires IsName(name)
    ensures Substitute(call, Quoted(Param(name)) + rest) == Meaning(call, Param(name)) + Substitute(call, rest)
  {
    assert Quoted(Param(name)) + rest == "\\" + (name + ("\\()" + rest));
    NameStep(call, name, "\\()" + rest);
    PasteStep(call, rest);
  }

  lemma SegmentIsMeaning(call: Call, s: Segment, rest: string)
    requires Writable(call, s)
    ensures Substitute(call, Quoted(s) + rest) == Meaning(call, s) + Substitute(call, rest)
  {
    match s
    case Text(t) => DoubledIsText(call, t, rest);
    case Param(n) => ParamIsValue(call, n, rest);
    case Positional(d) => ShortEscape(call, d, rest);
    case Counter => ShortEscape(call, '@', rest);
    case Literal(c) => ShortEscape(call, c, rest);
  }

  lemma ShortEscape(call: Call, c: char, rest: string)
    ensures var e := EscapeOf(call, [c] + rest);
            e.taken == 1 ==> Substitute(call, ['\\', c] + rest) == e.text + Substitute(call, rest)
  {
    assert ['\\', c] + rest == "\\" + ([c] + rest);
    EscapeStep(call, ['\\', c] + rest, [c] + rest);
    assert ([c] + rest)[1..] == rest;
  }

  /**
   Expansion inverts quoting. A body quoted from any segments expands to exactly what
   they stand for, one after another: nothing that is put in is looked at again, a name
   does not run into what follows it, and what is no reference is left alone.
   */
  lemma {:induction false} ExpansionInvertsQuoting(call: Call, list: seq<Segment>)
    requires forall k :: 0 <= k < |list| ==> Writable(call, list[k])
    ensures Substitute(call, QuoteAll(list)) == MeaningOfAll(call, list)
  {
    if list != [] {
      ExpansionInvertsQuoting(call, list[1..]);
      SegmentIsMeaning(call, list[0], QuoteAll(list[1..]));
    }
  }

  /** A name written without the empty paste is replaced as a whole exactly if nothing runs into it. */
  lemma BareName(call: Call, name: string, rest: string)
    requires IsName(name)
    ensures NameEnd(name + rest, 1) == |name| <==> rest == "" || !IsParamCont(rest[0])
    ensures rest == "" || !IsParamCont(rest[0]) ==>
              Substitute(call, "\\" + name + rest) == Meaning(call, Param(name)) + Substitute(call, rest)
  {
    if rest == "" || !IsParamCont(rest[0]) {
      NameIsWhole(name, rest);
      NameStep(call, name, rest);
      assert "\\" + name + rest == "\\" + (name + rest);
    } else {
      assert (name + rest)[|name|] == rest[0];
    }
  }

  // ---- splitting a parameter list -------------------------------------------------------

  predicate Opens(c: char) { c == '(' || c == '[' || c == '<' }

  predicate Closes(c: char) { c == ')' || c == ']' || c == '>' }

  predicate IsQuote(c: char) { c == '"' || c == '\'' }

  /** The quote the scan is inside, and how many brackets are open. */
  datatype Scan = Scan(quote: Option<char>, depth: int)

  /** Whether a comma here separates. */
  predicate Separates(s: Scan, c: char) { s.quote.None? && c == ',' && s.depth <= 0 }

  function Past(s: Scan, c: char): Scan {
    if s.quote.Some? then (if c == s.quote.value then Scan(None, s.depth) else s)
    else if IsQuote(c) then Scan(Some(c), s.depth)
    else if Opens(c) then Scan(None, s.depth + 1)
    else if Closes(c) then Scan(None, s.depth - 1)
    else s
  }

  /** How many characters are taken at once: a backslash inside quotes takes the next one with it. */
  function Width(s: Scan, rest: string): nat
    requires rest != ""
  {
    if s.quote.Some? && rest[0] == '\\' && |rest| > 1 then 2 else 1
  }

  /** `piece` is what has been read of the current piece. */
  function Split(s: Scan, piece: string, rest: string): (r: seq<string>)
    ensures r != []
    decreases |rest|
  {
    if rest == "" then [piece]
    else if Separates(s, rest[0]) then [piece] + Split(s, "", rest[1..])
    else if s.quote.Some? && rest[0] == '\\' then Split(s, piece + rest[..Width(s, rest)], rest[Width(s, rest)..])
    else Split(Past(s, rest[0]), piece + [rest[0]], rest[1..])
  }

  const START: Scan := Scan(None, 0)

  /** How a character that separates nothing changes the scan. */
  method Look(quote: Option<char>, depth: int, c: char) returns (q: Option<char>, d: int)
    ensures Scan(q, d) == Past(Scan(quote, depth), c)
  {
    q, d := quote, depth;
    match quote
    case Some(open) =>
      if c == open {
        q := None;
      }
    case None =>
      if IsQuote(c) {
        q := Some(c);
      } else if Opens(c) {
        d := depth + 1;
      } else if Closes(c) {
        d := depth - 1;
      }
  }

  /** The pieces still to come, with the scan at `i`, which a last backslash may put past the end. */
  function ToCome(s: Scan, text: string, start: nat, i: nat): seq<string>
    requires start <= i && start <= |text|
  {
    if i >= |text| then [text[start..]] else Split(s, text[start..i], text[i..])
  }

  lemma ComesToEnd(s: Scan, text: string, start: nat, i: nat)
    requires start <= i <= |text|
    ensures ToCome(s, text, start, i) == Split(s, text[start..i], text[i..])
  {
    if i == |text| { assert text[i..] == "" && text[start..i] == text[start..]; }
  }

  lemma SeparatorStep(s: Scan, text: string, start: nat, i: nat, out: seq<string>)
    requires start <= i < |text| && Separates(s, text[i])
    ensures out + ToCome(s, text, start, i) == (out + [text[start..i]]) + ToCome(s, text, i + 1, i + 1)
  {
    ComesToEnd(s, text, i + 1, i + 1);
    assert text[i..][1..] == text[i + 1..] && text[i + 1..i + 1] == "";
  }

  lemma OtherStep(s: Scan, text: string, start: nat, i: nat)
    requires start <= i < |text| && !Separates(s, text[i])
    ensures ToCome(s, text, start, i)
            == if s.quote.Some? && text[i] == '\\' then ToCome(s, text, start, i + 2)
               else ToCome(Past(s, text[i]), text, start, i + 1)
  {
    var piece, rest := text[start..i], text[i..];
    assert rest[1..] == text[i + 1..] && piece + [rest[0]] == text[start..i + 1];
    ComesToEnd(Past(s, text[i]), text, start, i + 1);
    if i + 1 < |text| {
      assert rest[2..] == text[i + 2..] && piece + rest[..2] == text[start..i + 2];
      ComesToEnd(s, text, start, i + 2);
    } else {
      assert rest[1..] == "" && rest[..1] == [rest[0]] && piece + rest[..1] == text[start..];
      assert Width(s, rest) == 1 && Split(s, piece + rest[..1], rest[1..]) == [text[start..]];
    }
  }

  method SplitParams(text: string) returns (out: seq<string>)
    ensures out == Split(START, "", text)
  {
    out := [];
    var depth: int := 0;
    var quote: Option<char> := None;
    var start: nat := 0;
    var i: nat := 0;
    assert text[0..] == text && text[0..0] == "";
    ComesToEnd(START, text, 0, 0);
    while i < |text|
      invariant start <= |text| && start <= i
      invariant out + ToCome(Scan(quote, depth), text, start, i) == Split(START, "", text)
    {
      var c := text[i];
      if quote.Some? && c == '\\' {
        OtherStep(Scan(quote, depth), text, start, i);
        i := i + 1;
      } else if quote.None? && c == ',' && depth <= 0 {
        SeparatorStep(Scan(quote, depth), text, start, i, out);
        out := out + [text[start..i]];
        start := i + 1;
      } else {
        OtherStep(Scan(quote, depth), text, start, i);
        quote, depth := Look(quote, depth, c);
      }
      i := i + 1;
    }
    out := out + [text[start..]];
  }

  function Joined(pieces: seq<string>): string
    requires pieces != []
  {
    if |pieces| == 1 then pieces[0] else pieces[0] + "," + Joined(pieces[1..])
  }

  lemma {:induction false} JoiningFrom(s: Scan, piece: string, rest: string)
    ensures Joined(Split(s, piece, rest)) == piece + rest
    decreases |rest|
  {
    if rest == "" {
    } else if Separates(s, rest[0]) {
      JoiningFrom(s, "", rest[1..]);
      var tail := Split(s, "", rest[1..]);
      assert ([piece] + tail)[1..] == tail;
      assert rest == [','] + rest[1..];
    } else if s.quote.Some? && rest[0] == '\\' {
      var w := Width(s, rest);
      JoiningFrom(s, piece + rest[..w], rest[w..]);
      assert rest == rest[..w] + rest[w..];
    } else {
      JoiningFrom(Past(s, rest[0]), piece + [rest[0]], rest[1..]);
      assert rest == [rest[0]] + rest[1..];
    }
  }

  /** Joining the pieces with commas restores the text, whatever it is. */
  lemma JoiningUndoesSplitting(text: string)
    ensures Joined(Split(START, "", text)) == text
  {
    JoiningFrom(START, "", text);
  }

  /** Read from `s`, the text has no separating comma and leaves no quote or bracket open. */
  predicate Closed(s: Scan, text: string)
    decreases |text|
  {
    if text == "" then s == START
    else if Separates(s, text[0]) then false
    else if s.quote.Some? && text[0] == '\\' then |text| > 1 && Closed(s, text[2..])
    else Closed(Past(s, text[0]), text[1..])
  }

  lemma {:induction false} ClosedIsOnePiece(s: Scan, piece: string, text: string, rest: string)
    requires Closed(s, text)
    ensures Split(s, piece, text + rest) == Split(START, piece + text, rest)
    decreases |text|
  {
    if text == "" {
      assert text + rest == rest && piece + text == piece;
    } else if s.quote.Some? && text[0] == '\\' {
      ClosedIsOnePiece(s, piece + text[..2], text[2..], rest);
      assert (text + rest)[2..] == text[2..] + rest && (text + rest)[..2] == text[..2];
      assert piece + text[..2] + text[2..] == piece + text;
    } else {
      ClosedIsOnePiece(Past(s, text[0]), piece + [text[0]], text[1..], rest);
      assert (text + rest)[1..] == text[1..] + rest;
      assert piece + [text[0]] + text[1..] == piece + text;
    }
  }

  /** Splitting joined pieces gives back the pieces, if each is closed: commas inside are kept together. */
  lemma {:induction false} SplittingUndoesJoining(pieces: seq<string>)
    requires pieces != [] && forall k :: 0 <= k < |pieces| ==> Closed(START, pieces[k])
    ensures Split(START, "", Joined(pieces)) == pieces
  {
    var first := pieces[0];
    assert "" + first == first;
    if |pieces| == 1 {
      ClosedIsOnePiece(START, "", first, "");
      assert first + "" == first;
    } else {
      var rest := "," + Joined(pieces[1..]);
      SplittingUndoesJoining(pieces[1..]);
      ClosedIsOnePiece(START, "", first, rest);
      assert Joined(pieces) == first + rest && rest[1..] == Joined(pieces[1..]);
    }
  }

  // ---- what keeps its commas ---------------------------------------------------------------

  /** A character, a quotation, or a bracket around more of them. */
  datatype Item = Char(c: char) | Quotation(quote: char, text: string) | Bracket(open: char, inner: seq<Item>, close: char)

  /** Text that a quotation may hold: no quote of its kind, but behind a backslash. */
  predicate Quotable(q: char, text: string)
    decreases |text|
  {
    if text == "" then true
    else if text[0] == '\\' then |text| > 1 && Quotable(q, text[2..])
    else text[0] != q && Quotable(q, text[1..])
  }

  /** Brackets in pairs, quotations closed, and no comma at the top. */
  predicate WellFormed(it: Item, top: bool) {
    match it
    case Char(c) => c !in "()[]<>\"'" && (top ==> c != ',')
    case Quotation(q, text) => q in "\"'" && Quotable(q, text)
    case Bracket(o, inner, c) => o in "([<" && c in ")]>" && forall i :: 0 <= i < |inner| ==> WellFormed(inner[i], false)
  }

  function Written(it: Item): string {
    match it
    case Char(c) => [c]
    case Quotation(q, text) => [q] + (text + [q])
    case Bracket(o, inner, c) => [o] + (WrittenAll(inner) + [c])
  }

  function WrittenAll(items: seq<Item>): string {
    if items == [] then "" else Written(items[0]) + WrittenAll(items[1..])
  }

  lemma {:induction false} QuotationPasses(q: char, depth: int, text: string, rest: string)
    requires Quotable(q, text) && q in "\"'"
    ensures Closed(Scan(Some(q), depth), text + ([q] + rest)) == Closed(Scan(None, depth), rest)
    decreases |text|
  {
    var all := text + ([q] + rest);
    if text == "" {
      assert all == [q] + rest && all[1..] == rest;
    } else if text[0] == '\\' {
      QuotationPasses(q, depth, text[2..], rest);
      assert all[2..] == text[2..] + ([q] + rest);
    } else {
      QuotationPasses(q, depth, text[1..], rest);
      assert all[1..] == text[1..] + ([q] + rest);
    }
  }

  lemma Around(open: char, middle: string, close: char, rest: string)
    ensures [open] + (middle + [close]) + rest == [open] + (middle + ([close] + rest))
  {
  }

  lemma OpeningStep(o: char, depth: nat, rest: string)
    requires o in "([<"
    ensures Closed(Scan(None, depth), [o] + rest) == Closed(Scan(None, depth + 1), rest)
  {
    assert ([o] + rest)[1..] == rest;
  }

  lemma ClosingStep(c: char, depth: nat, rest: string)
    requires c in ")]>"
    ensures Closed(Scan(None, depth + 1), [c] + rest) == Closed(Scan(None, depth), rest)
  {
    assert ([c] + rest)[1..] == rest;
  }

  lemma CharStep(c: char, depth: nat, rest: string)
    requires c !in "()[]<>\"'" && (depth == 0 ==> c != ',')
    ensures Closed(Scan(None, depth), [c] + rest) == Closed(Scan(None, depth), rest)
  {
    assert ([c] + rest)[1..] == rest;
  }

  lemma QuoteStep(q: char, depth: nat, rest: string)
    requires q in "\"'"
    ensures Closed(Scan(None, depth), [q] + rest) == Closed(Scan(Some(q), depth), rest)
  {
    assert ([q] + rest)[1..] == rest;
  }

  /** Whatever is well formed leaves the scan as it was. */
  lemma {:induction false} ItemPasses(it: Item, depth: nat, rest: string)
    requires WellFormed(it, depth == 0)
    ensures Closed(Scan(None, depth), Written(it) + rest) == Closed(Scan(None, depth), rest)
    decreases it
  {
    match it
    case Char(c) => CharStep(c, depth, rest);
    case Quotation(q, text) =>
      QuoteStep(q, depth, text + ([q] + rest));
      QuotationPasses(q, depth, text, rest);
      Around(q, text, q, rest);
    case Bracket(o, inner, c) =>
      OpeningStep(o, depth, WrittenAll(inner) + ([c] + rest));
      ItemsPass(inner, depth + 1, [c] + rest);
      ClosingStep(c, depth, rest);
      Around(o, WrittenAll(inner), c, rest);
  }

  lemma {:induction false} ItemsPass(items: seq<Item>, depth: nat, rest: string)
    requires forall i :: 0 <= i < |items| ==> WellFormed(items[i], depth == 0)
    ensures Closed(Scan(None, depth), WrittenAll(items) + rest) == Closed(Scan(None, depth), rest)
    decreases items
  {
    if items == [] {
      assert WrittenAll(items) + rest == rest;
    } else {
      ItemPasses(items[0], depth, WrittenAll(items[1..]) + rest);
      ItemsPass(items[1..], depth, rest);
      assert WrittenAll(items) + rest == Written(items[0]) + (WrittenAll(items[1..]) + rest);
    }
  }

  /** A list is split at the commas between well-formed pieces, and at none in their quotations and brackets. */
  lemma SplitsBetweenItems(pieces: seq<seq<Item>>)
    requires pieces != []
    requires forall k, i :: 0 <= k < |pieces| && 0 <= i < |pieces[k]| ==> WellFormed(pieces[k][i], true)
    ensures var texts := seq(|pieces|, k requires 0 <= k < |pieces| => WrittenAll(pieces[k]));
            Split(START, "", Joined(texts)) == texts
  {
    var texts := seq(|pieces|, k requires 0 <= k < |pieces| => WrittenAll(pieces[k]));
    forall k | 0 <= k < |texts| ensures Closed(START, texts[k]) {
      ItemsPass(pieces[k], 0, "");
      assert texts[k] + "" == texts[k];
    }
    SplittingUndoesJoining(texts);
  }
}
