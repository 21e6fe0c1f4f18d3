/** Attribute lists in HTTP headers: the parser, and the quoting that it undoes. */
module HttpAttributes {
  import opened Bytes

  datatype Attribute = Attribute(name: string, value: string)

  /** `isspace` in the C locale. */
  predicate IsSpace(c: char) {
    c == ' ' || (9 as char <= c <= 13 as char)
  }

  // ---------------------------------------------------------------------------------------------
  // What the parser takes from the rest of the input, and what it leaves
  // ---------------------------------------------------------------------------------------------

  function SkipSpace(s: string): (r: string)
    ensures |r| <= |s| && (r != [] ==> !IsSpace(r[0]))
  {
    if s != [] && IsSpace(s[0]) then SkipSpace(s[1..]) else s
  }

  predicate IsEndOfName(s: string) {
    s == [] || IsSpace(s[0]) || (|s| > 1 && s[0] == '=' && !IsSpace(s[1]) && s[1] != '=')
  }

  function NameLength(s: string): (n: nat)
    ensures n <= |s| && IsEndOfName(s[n..])
  {
    if IsEndOfName(s) then 0 else 1 + NameLength(s[1..])
  }

  /** A quoted value, behind the opening quote; a backslash that ends the input stands for itself. */
  function Quoted(s: string): (r: (string, string))
    ensures |r.1| <= |s|
  {
    if s == [] then ([], [])
    else if s[0] == '"' then ([], s[1..])
    else
      var taken := if s[0] == '\\' && |s| > 1 then 1 else 0;
      var (value, rest) := Quoted(s[taken + 1..]);
      ([s[taken]] + value, rest)
  }

  function Plain(s: string): (r: (string, string))
    ensures |r.1| <= |s|
  {
    if s == [] || IsSpace(s[0]) || s[0] == ',' then ([], s)
    else
      var (value, rest) := Plain(s[1..]);
      ([s[0]] + value, rest)
  }

  /** The value behind a name, if there is one. */
  function Value(s: string): (r: (string, string))
    ensures |r.1| <= |s| && (s != [] && s[0] == '=' ==> |r.1| < |s|)
  {
    if s == [] || s[0] != '=' then ([], s)
    else if |s| > 1 && s[1] == '"' then Quoted(s[2..])
    else Plain(s[1..])
  }

  function SkipComma(s: string): (r: string)
    ensures |r| <= |s|
  {
    if s != [] && s[0] == ',' then s[1..] else s
  }

  /** One attribute and what is left behind it. */
  function One(s: string): (r: (Attribute, string))
    requires s != [] && !IsSpace(s[0])
    ensures |r.1| < |s|
  {
    var n := NameLength(s);
    var (value, rest) := Value(s[n..]);
    (Attribute(s[..n], value), SkipComma(rest))
  }

  function Parse(s: string): seq<Attribute>
    decreases |s|
  {
    var t := SkipSpace(s);
    if t == [] then []
    else
      var (attribute, rest) := One(t);
      [attribute] + Parse(rest)
  }

  // ---------------------------------------------------------------------------------------------
  // Printing
  // ---------------------------------------------------------------------------------------------

  function Escaped(s: string): string {
    if s == [] then []
    else (if s[0] == '"' || s[0] == '\\' then ['\\', s[0]] else [s[0]]) + Escaped(s[1..])
  }

  function PrintOne(a: Attribute): string {
    a.name + "=\"" + Escaped(a.value) + "\""
  }

  function Print(list: seq<Attribute>): string {
    if list == [] then []
    else
      PrintOne(list[0]) + if |list| == 1 then [] else ", " + Print(list[1..])
  }

  /** No white space, and equal signs only at the end. */
  predicate NameOk(name: string) {
    forall i | 0 <= i < |name| ::
      !IsSpace(name[i]) && (name[i] == '=' && i + 1 < |name| ==> name[i + 1] == '=')
  }

  predicate NamesOk(list: seq<Attribute>) {
    forall i | 0 <= i < |list| :: NameOk(list[i].name)
  }

  // ---------------------------------------------------------------------------------------------
  // The round trip
  // ---------------------------------------------------------------------------------------------

  lemma {:induction false} QuotedBack(value: string, rest: string)
    ensures Quoted(Escaped(value) + "\"" + rest) == (value, rest)
    decreases |value|
  {
    var s := Escaped(value) + "\"" + rest;
    if value == [] {
      assert s[1..] == rest;
    } else {
      var taken := if value[0] == '"' || value[0] == '\\' then 1 else 0;
      assert s[taken + 1..] == Escaped(value[1..]) + "\"" + rest;
      QuotedBack(value[1..], rest);
      assert value == [value[0]] + value[1..];
    }
  }

  lemma {:induction false} NameBack(name: string, rest: string)
    requires NameOk(name) && IsEndOfName(rest) && rest != [] && rest[0] == '='
    ensures NameLength(name + rest) == |name|
    decreases |name|
  {
    if name == [] {
      assert name + rest == rest;
    } else {
      assert (name + rest)[1..] == name[1..] + rest;
      assert forall i | 0 <= i < |name[1..]| :: name[1..][i] == name[i + 1];
      NameBack(name[1..], rest);
    }
  }

  lemma OneBack(a: Attribute, rest: string)
    requires NameOk(a.name)
    ensures var s := PrintOne(a) + rest;
      s != [] && !IsSpace(s[0]) && One(s) == (a, SkipComma(rest))
  {
    hide Escaped, Quoted, NameLength;
    var s, body := PrintOne(a) + rest, Escaped(a.value) + "\"" + rest;
    var tail := "=\"" + body;
    assert s == a.name + tail;
    NameBack(a.name, tail);
    assert s[..|a.name|] == a.name && s[|a.name|..] == tail;
    QuotedBack(a.value, rest);
    ValueBack(a.value, body, rest);
  }

  lemma ValueBack(value: string, body: string, rest: string)
    requires Quoted(body) == (value, rest)
    ensures Value("=\"" + body) == (value, rest)
  {
    hide Quoted, Plain;
    assert ("=\"" + body)[2..] == body;
  }

  /** What ends a value without quotes: white space, as the C locale has it, or a comma. */
  predicate IsStop(c: char) {
    c == ' ' || c == ',' || c == '\t' || c == '\n' || c == '\r' || c as int == 11 || c as int == 12
  }

  lemma {:induction false} PlainBack(value: string, rest: string)
    requires forall i | 0 <= i < |value| :: !IsStop(value[i])
    requires rest == [] || IsStop(rest[0])
    ensures Plain(value + rest) == (value, rest)
    decreases |value|
  {
    if value == [] {
      assert value + rest == rest;
    } else {
      assert (value + rest)[1..] == value[1..] + rest;
      PlainBack(value[1..], rest);
      assert value == [value[0]] + value[1..];
    }
  }

  /** A value without quotes is read up to white space, a comma or the end. */
  lemma UnquotedBack(name: string, value: string, rest: string)
    requires NameOk(name) && value != [] && value[0] != '"' && value[0] != '='
    requires forall i | 0 <= i < |value| :: !IsStop(value[i])
    requires rest == [] || IsStop(rest[0])
    ensures var s := name + "=" + value + rest;
      s != [] && !IsSpace(s[0]) && One(s) == (Attribute(name, value), SkipComma(rest))
  {
    hide Plain, NameLength;
    var s, tail := name + "=" + value + rest, "=" + (value + rest);
    assert s == name + tail;
    NameBack(name, tail);
    assert s[..|name|] == name && s[|name|..] == tail;
    PlainBack(value, rest);
    assert tail[1..] == value + rest;
  }

  lemma {:induction false} ParsePrint(list: seq<Attribute>)
    requires NamesOk(list)
    ensures Parse(Print(list)) == list
    decreases |list|
  {
    if list == [] {
    } else {
      ParsePrintHead(list);
      if |list| > 1 {
        ParsePrint(list[1..]);
      }
      assert list == [list[0]] + list[1..];
    }
  }

  lemma ParsePrintHead(list: seq<Attribute>)
    requires list != [] && NameOk(list[0].name)
    ensures Parse(Print(list)) == [list[0]] + if |list| == 1 then [] else Parse(Print(list[1..]))
  {
    if |list| == 1 {
      assert PrintOne(list[0]) + [] == PrintOne(list[0]);
      OneBack(list[0], []);
      ParseStep(Print(list), list[0], []);
    } else {
      var more := Print(list[1..]);
      OneBack(list[0], ", " + more);
      ParseStep(Print(list), list[0], SkipComma(", " + more));
      ParseBehindSeparator(more);
    }
  }

  lemma ParseStep(s: string, a: Attribute, rest: string)
    requires s != [] && !IsSpace(s[0]) && One(s) == (a, rest)
    ensures Parse(s) == [a] + Parse(rest)
  {
  }

  lemma ParseBehindSeparator(s: string)
    ensures Parse(SkipComma(", " + s)) == Parse(s)
  {
    assert (", " + s)[1..] == " " + s;
    assert (" " + s)[1..] == s;
  }

  lemma {:induction false} ScannedNameOk(s: string)
    ensures NameOk(s[..NameLength(s)])
    decreases |s|
  {
    if !IsEndOfName(s) {
      ScannedNameOk(s[1..]);
      var n := NameLength(s);
      forall i | 0 <= i < n
        ensures !IsSpace(s[i]) && (s[i] == '=' && i + 1 < n ==> s[i + 1] == '=')
      {
        if i > 0 { assert s[i] == s[1..][..n - 1][i - 1]; }
        if i + 1 < n { assert s[i + 1] == s[1..][..n - 1][i]; }
      }
    }
  }

  /** Whatever the input, the names that are found have no white space, and equal signs only at the end. */
  lemma {:induction false} ParsedNamesOk(s: string)
    ensures NamesOk(Parse(s))
    decreases |s|
  {
    var t := SkipSpace(s);
    if t != [] {
      ScannedNameOk(t);
      ParsedNamesOk(One(t).1);
    }
  }

  /** The values are arbitrary; the names that survive are exactly those that the parser can find. */
  lemma RoundTripIff(list: seq<Attribute>)
    ensures Parse(Print(list)) == list <==> NamesOk(list)
  {
    ParsedNamesOk(Print(list));
    if NamesOk(list) {
      ParsePrint(list);
    }
  }

  /** An equal sign inside a name ends it. */
  lemma InnerEqualSignIsLost()
    ensures Parse(Print([Attribute("a=b", "c")])) != [Attribute("a=b", "c")]
  {
    var list := [Attribute("a=b", "c")];
    assert list[0].name[1] == '=' && list[0].name[2] == 'b';
    assert !NamesOk(list);
    RoundTripIff(list);
  }

  // ---------------------------------------------------------------------------------------------
  // The loops
  // ---------------------------------------------------------------------------------------------

  lemma EscapeNext(str: string, i: nat, before: string)
    requires i < |str|
    ensures before + Escaped(str[i..]) ==
      (if str[i] == '"' || str[i] == '\\' then before + ['\\'] + [str[i]] else before + [str[i]]) + Escaped(str[i + 1..])
  {
    assert str[i..][1..] == str[i + 1..];
  }

  lemma EscapeDone(str: string, result: string)
    ensures result + Escaped(str[|str|..]) == result
  {
    assert str[|str|..] == [];
  }

  method Quote(str: string) returns (result: string)
    ensures result == "\"" + Escaped(str) + "\""
    ensures Quoted(result[1..]) == (str, "")
  {
    hide Escaped, Quoted;
    result := "\"";
    assert str[0..] == str;
    for i := 0 to |str|
      invariant |result| > 0 && result + Escaped(str[i..]) == "\"" + Escaped(str)
    {
      EscapeNext(str, i, result);
      if str[i] == '"' || str[i] == '\\' {
        result := result + ['\\'];
      }
      result := result + [str[i]];
    }
    EscapeDone(str, result);
    result := result + "\"";
    QuotedBack(str, "");
    assert result[1..] == Escaped(str) + "\"" + "";
  }

  method SkipWhitespace(data: string, from: nat) returns (pos: nat)
    requires from <= |data|
    ensures from <= pos <= |data| && data[pos..] == SkipSpace(data[from..])
  {
    pos := from;
    while pos < |data| && IsSpace(data[pos])
      invariant from <= pos <= |data| && SkipSpace(data[pos..]) == SkipSpace(data[from..])
    {
      assert data[pos..][1..] == data[pos + 1..];
      pos := pos + 1;
    }
  }

  method IsEndOfAttributeName(pos: nat, data: string) returns (end: bool)
    requires pos <= |data|
    ensures end <==> IsEndOfName(data[pos..])
  {
    if pos >= |data| {
      return true;
    }
    if IsSpace(data[pos]) {
      return true;
    }
    if pos + 1 < |data| && data[pos] == '=' && !IsSpace(data[pos + 1]) && data[pos + 1] != '=' {
      return true;
    }
    return false;
  }

  method FindEndOfName(data: string, from: nat) returns (pos: nat)
    requires from <= |data|
    ensures pos == from + NameLength(data[from..])
  {
    pos := from;
    var end := IsEndOfAttributeName(pos, data);
    while !end
      invariant from <= pos <= |data| && (end <==> IsEndOfName(data[pos..]))
      invariant pos + NameLength(data[pos..]) == from + NameLength(data[from..])
      decreases |data| - pos
    {
      assert data[pos..][1..] == data[pos + 1..];
      pos := pos + 1;
      end := IsEndOfAttributeName(pos, data);
    }
  }

  /** With `value` behind us, the rest of the quoted value is read from `pos`. */
  ghost predicate QuotedSoFar(data: string, value: string, pos: nat, all: (string, string)) {
    && pos <= |data|
    && var (more, rest) := Quoted(data[pos..]); value + more == all.0 && rest == all.1
  }

  lemma QuotedStep(data: string, value: string, pos: nat, all: (string, string))
    requires QuotedSoFar(data, value, pos, all) && pos < |data| && data[pos] != '"'
    ensures var at := if data[pos] == '\\' && pos + 1 < |data| then pos + 1 else pos;
      QuotedSoFar(data, value + [data[at]], at + 1, all)
  {
    var at := if data[pos] == '\\' && pos + 1 < |data| then pos + 1 else pos;
    assert data[pos..][at - pos + 1..] == data[at + 1..];
    var more := Quoted(data[at + 1..]).0;
    assert value + ([data[at]] + more) == value + [data[at]] + more;
  }

  lemma QuotedEnds(data: string, value: string, pos: nat, all: (string, string))
    requires QuotedSoFar(data, value, pos, all) && (pos < |data| ==> data[pos] == '"')
    ensures all == (value, if pos < |data| then data[pos + 1..] else [])
  {
    assert value + [] == value;
    if pos < |data| {
      SliceOfTail(data, pos, 1);
    } else {
      assert data[pos..] == [];
    }
  }

  /** One character of a quoted value, or its end. */
  method ReadQuotedCharacter(data: string, value: string, from: nat, ghost all: (string, string))
    returns (more: string, pos: nat, ended: bool)
    requires from < |data| && QuotedSoFar(data, value, from, all)
    ensures from < pos <= |data|
    ensures ended ==> all == (more, data[pos..])
    ensures !ended ==> QuotedSoFar(data, more, pos, all)
  {
    more, pos, ended := value, from, data[from] == '"';
    if ended {
      QuotedEnds(data, value, from, all);
    } else {
      QuotedStep(data, value, from, all);
      if data[pos] == '\\' && pos + 1 < |data| {
        pos := pos + 1;
      }
      more := value + [data[pos]];
    }
    pos := pos + 1;
  }

  /** From the opening quote. */
  method ReadQuoted(data: string, from: nat) returns (value: string, pos: nat)
    requires from < |data|
    ensures from < pos <= |data| && Quoted(data[from + 1..]) == (value, data[pos..])
  {
    value, pos := "", from + 1;
    ghost var all := Quoted(data[from + 1..]);
    while pos < |data|
      invariant from < pos && QuotedSoFar(data, value, pos, all)
    {
      var ended;
      value, pos, ended := ReadQuotedCharacter(data, value, pos, all);
      if ended {
        return;
      }
    }
    QuotedEnds(data, value, pos, all);
  }

  method ReadPlain(data: string, from: nat) returns (value: string, pos: nat)
    requires from <= |data|
    ensures from <= pos <= |data| && Plain(data[from..]) == (value, data[pos..])
  {
    value, pos := "", from;
    ghost var all := Plain(data[from..]);
    while pos < |data| && !IsSpace(data[pos]) && data[pos] != ','
      invariant from <= pos <= |data|
      invariant value + Plain(data[pos..]).0 == all.0 && Plain(data[pos..]).1 == all.1
    {
      assert data[pos..][1..] == data[pos + 1..];
      ghost var behind := Plain(data[pos + 1..]).0;
      assert value + ([data[pos]] + behind) == value + [data[pos]] + behind;
      value := value + [data[pos]];
      pos := pos + 1;
    }
    assert value + [] == value;
  }

  method ReadValue(data: string, from: nat) returns (value: string, pos: nat)
    requires from <= |data|
    ensures from <= pos <= |data| && Value(data[from..]) == (value, data[pos..])
  {
    value, pos := "", from;
    if pos < |data| && data[pos] == '=' {
      pos := pos + 1;
      if pos < |data| && data[pos] == '"' {
        assert data[from..][2..] == data[pos + 1..];
        value, pos := ReadQuoted(data, pos);
      } else {
        assert data[from..][1..] == data[pos..];
        value, pos := ReadPlain(data, pos);
      }
    }
  }

  /** The attribute at `start`, and the position behind it and its comma. */
  method ReadAttribute(data: string, start: nat) returns (attribute: Attribute, pos: nat)
    requires start < |data| && !IsSpace(data[start])
    ensures start < pos <= |data| && One(data[start..]) == (attribute, data[pos..])
  {
    pos := FindEndOfName(data, start);
    var name := data[start..pos];
    var value;
    value, pos := ReadValue(data, pos);
    attribute := Attribute(name, value);
    ghost var behindValue := pos;
    pos := PassComma(data, pos);
    OneIs(data, start, start + |name|, value, behindValue, pos);
  }

  lemma OneIs(data: string, start: nat, n: nat, value: string, behindValue: nat, pos: nat)
    requires start < |data| && !IsSpace(data[start]) && n == start + NameLength(data[start..])
    requires n <= behindValue <= pos <= |data|
    requires Value(data[n..]) == (value, data[behindValue..]) && data[pos..] == SkipComma(data[behindValue..])
    ensures start < pos && One(data[start..]) == (Attribute(data[start..n], value), data[pos..])
  {
    hide NameLength, Value, One, SkipComma, IsSpace;
    SliceOfTail(data, start, n - start);
    OneOf(data[start..], n - start, value, data[behindValue..]);
  }

  lemma OneOf(s: string, n: nat, value: string, rest: string)
    requires s != [] && !IsSpace(s[0]) && n == NameLength(s) && Value(s[n..]) == (value, rest)
    ensures One(s) == (Attribute(s[..n], value), SkipComma(rest)) && |SkipComma(rest)| < |s|
  {
    assert |One(s).1| < |s|;
  }

  method PassComma(data: string, from: nat) returns (pos: nat)
    requires from <= |data|
    ensures from <= pos <= |data| && data[pos..] == SkipComma(data[from..])
  {
    pos := from;
    if pos < |data| && data[pos] == ',' {
      pos := pos + 1;
    }
  }

  /** Ends on every input. */
  method HttpParseAttributes(data: string, before: seq<Attribute>) returns (attributes: seq<Attribute>)
    ensures attributes == before + Parse(data)
  {
    attributes := before;
    var pos := 0;
    assert data[0..] == data;
    while true
      invariant 0 <= pos <= |data| && attributes + Parse(data[pos..]) == before + Parse(data)
      decreases |data| - pos
    {
      ghost var rest := data[pos..];
      pos := SkipWhitespace(data, pos);
      if pos >= |data| {
        return;
      }
      var attribute;
      attribute, pos := ReadAttribute(data, pos);
      assert Parse(rest) == [attribute] + Parse(data[pos..]);
      attributes := attributes + [attribute];
    }
  }
}
