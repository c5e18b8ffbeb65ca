// Shell patterns: the argument of a catalog command, and the LIKE parameter it
// becomes (src/shell/commands.rs, src/sql/metadata.rs). Texts are sequences of
// Unicode scalar values.

module Patterns {
  import opened Wrappers

  // ---- Glob to LIKE. ----

  /** What one character of a shell pattern becomes. */
  function LikeFor(c: char): string {
    if c == '*' then "%" else if c == '%' || c == '_' || c == '\\' then ['\\', c] else [c]
  }

  function RelationPattern(pattern: string): string {
    if pattern == "" then "" else LikeFor(pattern[0]) + RelationPattern(pattern[1..])
  }

  method BuildRelationPattern(pattern: string) returns (value: string)
    ensures value == RelationPattern(pattern)
  {
    hide LikeFor;
    value := "";
    var k := 0;
    ghost var rest := RelationPattern(pattern);
    assert pattern[0..] == pattern;
    while k < |pattern|
      invariant k <= |pattern| && rest == RelationPattern(pattern[k..])
      invariant value + rest == RelationPattern(pattern)
    {
      assert pattern[k..][1..] == pattern[k + 1..];
      rest := RelationPattern(pattern[k + 1..]);
      assert value + (LikeFor(pattern[k]) + rest) == (value + LikeFor(pattern[k])) + rest;
      var piece := PushCharacter(pattern[k]);
      value := value + piece;
      k := k + 1;
    }
  }

  method PushCharacter(character: char) returns (piece: string)
    ensures piece == LikeFor(character)
  {
    match character {
      case '*' => return ['%'];
      case '%' => return ['\\', character];
      case '_' => return ['\\', character];
      case '\\' => return ['\\', character];
      case _ => return [character];
    }
  }

  /** LIKE with backslash as its escape, as section 9.7.1 of the PostgreSQL manual defines it. */
  ghost predicate Like(name: string, pattern: string)
    decreases |pattern|
  {
    if pattern == "" then name == ""
    else if pattern[0] == '%' then exists k :: 0 <= k <= |name| && Like(name[k..], pattern[1..])
    else if pattern[0] == '_' then name != "" && Like(name[1..], pattern[1..])
    else if pattern[0] == '\\' then
      1 < |pattern| && name != "" && name[0] == pattern[1] && Like(name[1..], pattern[2..])
    else name != "" && name[0] == pattern[0] && Like(name[1..], pattern[1..])
  }

  /** A shell pattern: a star is any sequence of characters, everything else is itself. */
  ghost predicate Glob(name: string, pattern: string)
    decreases |pattern|
  {
    if pattern == "" then name == ""
    else if pattern[0] == '*' then exists k :: 0 <= k <= |name| && Glob(name[k..], pattern[1..])
    else name != "" && name[0] == pattern[0] && Glob(name[1..], pattern[1..])
  }

  /** The LIKE parameter matches exactly the names that the shell pattern means. */
  lemma {:induction false} LikeMeansGlob(name: string, pattern: string)
    ensures Like(name, RelationPattern(pattern)) <==> Glob(name, pattern)
    decreases |pattern|
  {
    if pattern != "" {
      var c, rest := pattern[0], pattern[1..];
      var like := RelationPattern(rest);
      if c == '*' {
        assert RelationPattern(pattern)[1..] == like;
        forall k | 0 <= k <= |name|
          ensures Like(name[k..], like) <==> Glob(name[k..], rest)
        {
          LikeMeansGlob(name[k..], rest);
        }
      } else {
        if c == '%' || c == '_' || c == '\\' {
          assert RelationPattern(pattern)[2..] == like;
        } else {
          assert RelationPattern(pattern)[1..] == like;
        }
        if name != "" {
          LikeMeansGlob(name[1..], rest);
        }
      }
    }
  }

  lemma {:induction false} StarFreeIsLiteral(name: string, pattern: string)
    requires '*' !in pattern
    ensures Glob(name, pattern) <==> name == pattern
    decreases |pattern|
  {
    if pattern != "" && name != "" {
      StarFreeIsLiteral(name[1..], pattern[1..]);
      assert name == [name[0]] + name[1..] && pattern == [pattern[0]] + pattern[1..];
    }
  }

  // ---- The argument of a catalog command. ----

  predicate IsAsciiWhitespace(c: char) {
    c == ' ' || c == '\t' || c == '\n' || c == '\r' || c as int == 12
  }

  /** The Unicode White_Space property. */
  predicate IsUnicodeWhitespace(c: char) {
    var n := c as int;
    || 9 <= n <= 13 || n == 0x20 || n == 0x85 || n == 0xA0 || n == 0x1680
    || 0x2000 <= n <= 0x200A || n == 0x2028 || n == 0x2029 || n == 0x202F || n == 0x205F || n == 0x3000
  }

  function TrimStart(s: string): string {
    if s != "" && IsUnicodeWhitespace(s[0]) then TrimStart(s[1..]) else s
  }

  function TrimEnd(s: string): string {
    if s != "" && IsUnicodeWhitespace(s[|s| - 1]) then TrimEnd(s[..|s| - 1]) else s
  }

  function Trim(s: string): string {
    TrimEnd(TrimStart(s))
  }

  datatype Argument = NoPattern | Pattern(text: string) | Usage

  /** The inside of a quoted argument, where a doubled quote stands for one; None for a lone quote. */
  function Undouble(s: string): Option<string> {
    if s == "" then Some("")
    else if s[0] != '"' then
      match Undouble(s[1..])
      case None => None
      case Some(rest) => Some([s[0]] + rest)
    else if 1 < |s| && s[1] == '"' then
      match Undouble(s[2..])
      case None => None
      case Some(rest) => Some(['"'] + rest)
    else None
  }

  predicate IsPlain(argument: string) {
    forall k :: 0 <= k < |argument| ==> !IsUnicodeWhitespace(argument[k]) && argument[k] != '"'
  }

  function ParsePattern(argument: string): Argument {
    if argument == "" then NoPattern
    else if argument[0] != '"' then
      if IsPlain(argument) then Pattern(argument) else Usage
    else if argument[|argument| - 1] != '"' || |argument| == 1 then Usage
    else
      match Undouble(argument[1..|argument| - 1])
      case None => Usage
      case Some(text) => Pattern(text)
  }

  function Behind(value: string, rest: Option<string>): Option<string> {
    match rest
    case None => None
    case Some(text) => Some(value + text)
  }

  lemma BehindGrows(value: string, c: char, rest: Option<string>)
    ensures Behind(value, Behind([c], rest)) == Behind(value + [c], rest)
    ensures Behind("", rest) == rest
  {
    if rest.Some? {
      assert value + ([c] + rest.value) == (value + [c]) + rest.value;
      assert "" + rest.value == rest.value;
    }
  }

  /** The loop that undoes the doubling. */
  method UndoubleLoop(characters: string) returns (r: Option<string>)
    ensures r == Undouble(characters)
  {
    var value := "";
    var index := 0;
    assert characters[0..] == characters;
    BehindGrows("", ' ', Undouble(characters));
    while index < |characters|
      invariant index <= |characters|
      invariant Undouble(characters) == Behind(value, Undouble(characters[index..]))
      decreases |characters| - index
    {
      var c := characters[index];
      var taken := if c == '"' then 2 else 1;
      if c == '"' && !(index + 1 < |characters| && characters[index + 1] == '"') {
        return None;
      }
      assert characters[index..][taken..] == characters[index + taken..];
      assert Undouble(characters[index..]) == Behind([c], Undouble(characters[index + taken..]));
      BehindGrows(value, c, Undouble(characters[index + taken..]));
      value := value + [c];
      index := index + taken;
    }
    assert characters[index..] == "" && value + "" == value;
    return Some(value);
  }

  // ---- Quoting and reading back. ----

  function Doubled(s: string): (r: string)
    ensures |r| >= |s|
  {
    if s == "" then ""
    else (if s[0] == '"' then ['"', '"'] else [s[0]]) + Doubled(s[1..])
  }

  /** How a user writes a name literally: between quotes, with each quote in it doubled. */
  function Quoted(s: string): string {
    ['"'] + Doubled(s) + ['"']
  }

  lemma {:induction false} UndoubleDoubled(s: string)
    ensures Undouble(Doubled(s)) == Some(s)
  {
    if s != "" {
      UndoubleDoubled(s[1..]);
      var rest := Doubled(s[1..]);
      assert s == [s[0]] + s[1..];
      if s[0] == '"' {
        assert (['"', '"'] + rest)[2..] == rest;
      } else {
        assert ([s[0]] + rest)[1..] == rest;
      }
    }
  }

  lemma QuotedReadsBack(s: string)
    ensures ParsePattern(Quoted(s)) == Pattern(s)
  {
    UndoubleDoubled(s);
    assert Quoted(s)[1..|Quoted(s)| - 1] == Doubled(s);
  }

  /** What trimming leaves starts and ends with no white space, and everything it takes away is. */
  lemma TrimMeans(s: string) returns (i: nat, j: nat)
    ensures i <= j <= |s| && Trim(s) == s[i..j]
    ensures forall k :: 0 <= k < i || j <= k < |s| ==> IsUnicodeWhitespace(s[k])
    ensures i < j ==> !IsUnicodeWhitespace(s[i]) && !IsUnicodeWhitespace(s[j - 1])
  {
    hide IsUnicodeWhitespace;
    i := TrimStartMeans(s);
    var kept := s[i..];
    j := TrimEndMeans(kept);
    assert kept[..j] == s[i..i + j];
    assert forall k :: i <= k < |s| ==> s[k] == kept[k - i];
    j := i + j;
  }

  lemma {:induction false} TrimStartMeans(s: string) returns (i: nat)
    ensures i <= |s| && TrimStart(s) == s[i..] && forall k :: 0 <= k < i ==> IsUnicodeWhitespace(s[k])
    ensures i < |s| ==> !IsUnicodeWhitespace(s[i])
  {
    hide IsUnicodeWhitespace;
    i := 0;
    if s != "" && IsUnicodeWhitespace(s[0]) {
      i := TrimStartMeans(s[1..]);
      assert forall k :: 0 < k < |s| ==> s[k] == s[1..][k - 1];
      i := i + 1;
    }
  }

  lemma {:induction false} TrimEndMeans(s: string) returns (j: nat)
    ensures j <= |s| && TrimEnd(s) == s[..j] && forall k :: j <= k < |s| ==> IsUnicodeWhitespace(s[k])
    ensures 0 < j ==> !IsUnicodeWhitespace(s[j - 1])
  {
    hide IsUnicodeWhitespace;
    j := |s|;
    if s != "" && IsUnicodeWhitespace(s[|s| - 1]) {
      var before := s[..|s| - 1];
      j := TrimEndMeans(before);
      assert forall k :: 0 <= k < |before| ==> s[k] == before[k];
    }
  }

  // ---- The command line around it. ----

  datatype Catalog = Relations | Tables | Schemas

  datatype Parsed = NotMeta | Malformed | OtherCommand | Request(catalog: Catalog, pattern: Argument)

  function NameStart(line: string, i: nat): (r: nat)
    requires i <= |line|
    ensures i <= r <= |line| && (r < |line| ==> !IsAsciiWhitespace(line[r]))
    ensures forall k :: i <= k < r ==> IsAsciiWhitespace(line[k])
    decreases |line| - i
  {
    if i < |line| && IsAsciiWhitespace(line[i]) then NameStart(line, i + 1) else i
  }

  function NameEnd(line: string, i: nat): (r: nat)
    requires i <= |line|
    ensures i <= r <= |line|
    ensures forall k :: i <= k < r ==> !IsAsciiWhitespace(line[k])
    ensures i < |line| && !IsAsciiWhitespace(line[i]) ==> i < r
    decreases |line| - i
  {
    if i < |line| && !IsAsciiWhitespace(line[i]) then NameEnd(line, i + 1) else i
  }

  function CommandName(line: string): string
    requires line != ""
  {
    var start := NameStart(line, 1);
    line[start..NameEnd(line, start)]
  }

  /** The argument as the source slices it: the name's length behind the backslash, trimmed. */
  function ArgumentText(line: string): string
    requires line != ""
  {
    Trim(line[1 + |CommandName(line)|..])
  }

  function Parse(line: string, sqlBufferActive: bool): Parsed {
    if sqlBufferActive || line == "" || line[0] != '\\' then NotMeta
    else if exists k :: 0 <= k < |line| && (line[k] == '\n' || line[k] == '\r') then Malformed
    else if CommandName(line) == "" then Malformed
    else
      var name := CommandName(line);
      if name == "d" then Request(Relations, ParsePattern(ArgumentText(line)))
      else if name == "dt" then Request(Tables, ParsePattern(ArgumentText(line)))
      else if name == "dn" then Request(Schemas, ParsePattern(ArgumentText(line)))
      else OtherCommand
  }

  /** A line that starts with a backslash is refused without a command exactly if it has a line break or no name. */
  lemma MalformedMeans(line: string)
    requires line != "" && line[0] == '\\'
    ensures Parse(line, false) == Malformed
       <==> || (exists k :: 0 <= k < |line| && (line[k] == '\n' || line[k] == '\r'))
            || forall k :: 1 <= k < |line| ==> IsAsciiWhitespace(line[k])
    ensures Parse(line, true) == NotMeta && Parse(line, false) != NotMeta
  {
    hide ParsePattern;
    hide ArgumentText;
    var start := NameStart(line, 1);
    if start < |line| {
      assert !IsAsciiWhitespace(line[start]);
    }
  }

  lemma {:induction false} DoubledHasNoNewline(s: string, k: nat)
    requires '\n' !in s && '\r' !in s && k < |Doubled(s)|
    ensures Doubled(s)[k] != '\n' && Doubled(s)[k] != '\r'
    decreases |s|
  {
    var head := if s[0] == '"' then ['"', '"'] else [s[0]];
    if k >= |head| {
      DoubledHasNoNewline(s[1..], k - |head|);
    }
  }

  /** `\d`, `\dt` and `\dn` ask for relations, tables and schemas, with the pattern that was quoted. */
  lemma ParseQuoted(s: string)
    requires '\n' !in s && '\r' !in s
    ensures Parse("\\d " + Quoted(s), false) == Request(Relations, Pattern(s))
    ensures Parse("\\dt " + Quoted(s), false) == Request(Tables, Pattern(s))
    ensures Parse("\\dn " + Quoted(s), false) == Request(Schemas, Pattern(s))
  {
    hide Quoted;
    hide Parse;
    QuotedRequest("\\d ", "d", s);
    QuotedRequest("\\dt ", "dt", s);
    QuotedRequest("\\dn ", "dn", s);
  }

  lemma QuotedRequest(prefix: string, name: string, s: string)
    requires prefix == "\\" + name + " " && (name == "d" || name == "dt" || name == "dn")
    requires '\n' !in s && '\r' !in s
    ensures Parse(prefix + Quoted(s), false)
         == Request(if name == "d" then Relations else if name == "dt" then Tables else Schemas, Pattern(s))
  {
    hide Quoted;
    hide ParsePattern;
    hide Parse;
    hide CommandName;
    hide ArgumentText;
    hide OnOneLine;
    ParseNamed(name, s);
    NamedRequest(prefix + Quoted(s));
    QuotedReadsBack(s);
  }

  predicate OnOneLine(line: string) {
    forall k :: 0 <= k < |line| ==> line[k] != '\n' && line[k] != '\r'
  }

  lemma NamedRequest(line: string)
    requires line != "" && line[0] == '\\' && OnOneLine(line)
    ensures var argument := ParsePattern(ArgumentText(line));
            && (CommandName(line) == "d" ==> Parse(line, false) == Request(Relations, argument))
            && (CommandName(line) == "dt" ==> Parse(line, false) == Request(Tables, argument))
            && (CommandName(line) == "dn" ==> Parse(line, false) == Request(Schemas, argument))
  {
    hide CommandName;
    hide ArgumentText;
    hide ParsePattern;
  }

  lemma QuotedOnOneLine(s: string, k: nat)
    requires '\n' !in s && '\r' !in s && k < |Quoted(s)|
    ensures Quoted(s)[k] != '\n' && Quoted(s)[k] != '\r'
  {
    if 0 < k < |Quoted(s)| - 1 {
      DoubledHasNoNewline(s, k - 1);
    }
  }

  lemma QuotedIsTrimmed(s: string)
    ensures TrimStart(" " + Quoted(s)) == Quoted(s) && TrimEnd(Quoted(s)) == Quoted(s)
  {
    assert (" " + Quoted(s))[1..] == Quoted(s);
  }

  lemma ParseNamed(name: string, s: string)
    requires 0 < |name| <= 2 && forall k :: 0 <= k < |name| ==> 'a' <= name[k] <= 'z'
    requires '\n' !in s && '\r' !in s
    ensures var line := "\\" + name + " " + Quoted(s);
            OnOneLine(line) && CommandName(line) == name && ArgumentText(line) == Quoted(s)
  {
    hide Quoted;
    hide TrimStart;
    hide TrimEnd;
    var line, n := "\\" + name + " " + Quoted(s), |name|;
    assert line[n + 1] == ' ' && forall k :: 1 <= k <= n ==> line[k] == name[k - 1];
    forall k | 0 <= k < |line|
      ensures line[k] != '\n' && line[k] != '\r'
    {
      if k >= n + 2 {
        assert line[k] == Quoted(s)[k - n - 2];
        QuotedOnOneLine(s, k - n - 2);
      }
    }
    assert NameStart(line, 1) == 1;
    assert NameEnd(line, 1) == n + 1;
    assert line[1..n + 1] == name && line[n + 1..] == " " + Quoted(s);
    QuotedIsTrimmed(s);
  }

  /** The arguments that ask for a pattern: plain texts for themselves, and quoted texts for what was quoted. */
  lemma PatternMeans(argument: string, text: string)
    ensures ParsePattern(argument) == Pattern(text)
       <==> || (argument == text != "" && IsPlain(text))
            || argument == "\"" + Doubled(text) + "\""
  {
    hide Undouble;
    hide Doubled;
    var quoted := "\"" + Doubled(text) + "\"";
    assert quoted == Quoted(text) && quoted[0] == '"';
    QuotedReadsBack(text);
    if argument != "" && argument[0] == '"' && ParsePattern(argument) == Pattern(text) {
      QuotedMeans(argument, text);
    }
  }

  lemma QuotedMeans(argument: string, text: string)
    requires argument != "" && argument[0] == '"' && ParsePattern(argument) == Pattern(text)
    ensures argument == Quoted(text)
  {
    hide Undouble;
    hide Doubled;
    var n := |argument| - 1;
    var inside := argument[1..n];
    UndoubleMeans(inside, text);
    assert argument == ['"'] + inside + ['"'];
  }

  lemma {:induction false} UndoubleMeans(s: string, text: string)
    requires Undouble(s) == Some(text)
    ensures s == Doubled(text)
  {
    if s != "" {
      var n := if s[0] == '"' then 2 else 1;
      UndoubleMeans(s[n..], Undouble(s[n..]).value);
      assert s == s[..n] + s[n..];
      assert text == [s[0]] + Undouble(s[n..]).value;
      assert text[1..] == Undouble(s[n..]).value;
    }
  }

  /** A quoted, star-free name asked for in the shell becomes a parameter that matches it alone. */
  lemma QuotedNameMatchesItself(s: string, name: string)
    requires '\n' !in s && '\r' !in s && '*' !in s
    ensures var request := Parse("\\d " + Quoted(s), false);
            && request == Request(Relations, Pattern(s))
            && (Like(name, RelationPattern(request.pattern.text)) <==> name == s)
  {
    ParseQuoted(s);
    LikeMeansGlob(name, s);
    StarFreeIsLiteral(name, s);
  }

  // ---- Blanks between the backslash and the name shift the argument. ----

  predicate HasInk(s: string) {
    exists k :: 0 <= k < |s| && !IsUnicodeWhitespace(s[k])
  }

  lemma {:induction false} TrimStartBehind(a: string, b: string)
    requires HasInk(a)
    ensures TrimStart(a + b) == TrimStart(a) + b && TrimStart(a) != ""
    decreases |a|
  {
    if IsUnicodeWhitespace(a[0]) {
      var k :| 0 <= k < |a| && !IsUnicodeWhitespace(a[k]);
      assert !IsUnicodeWhitespace(a[1..][k - 1]);
      TrimStartBehind(a[1..], b);
      assert (a + b)[1..] == a[1..] + b;
    }
  }

  lemma {:induction false} TrimEndBehind(a: string, b: string)
    requires a != "" && !IsUnicodeWhitespace(a[|a| - 1])
    ensures TrimEnd(a + b) == a + TrimEnd(b)
    decreases |b|
  {
    if b == "" {
      assert a + b == a;
    } else if IsUnicodeWhitespace(b[|b| - 1]) {
      assert (a + b)[..|a + b| - 1] == a + b[..|b| - 1];
      TrimEndBehind(a, b[..|b| - 1]);
    }
  }

  lemma {:induction false} TrimEndOfTail(s: string, k: nat)
    requires k <= |s|
    ensures |TrimEnd(s[k..])| <= |TrimEnd(s)|
    decreases |s|
  {
    if k < |s| && IsUnicodeWhitespace(s[|s| - 1]) {
      assert s[k..][..|s[k..]| - 1] == s[..|s| - 1][k..];
      TrimEndOfTail(s[..|s| - 1], k);
    } else if k == |s| {
      assert s[k..] == "";
    }
  }

  lemma InkMakesLonger(before: string, behind: string)
    requires before != "" && !IsUnicodeWhitespace(before[|before| - 1])
    ensures |Trim(before + behind)| > |Trim(behind)|
  {
    hide TrimStart;
    hide TrimEnd;
    hide HasInk;
    hide IsUnicodeWhitespace;
    LastIsInk(before);
    TrimStartBehind(before, behind);
    var k := TrimStartMeans(before);
    var kept := before[k..];
    assert kept[|kept| - 1] == before[|before| - 1];
    TrimEndBehind(kept, behind);
    var j := TrimStartMeans(behind);
    TrimEndOfTail(behind, j);
  }

  lemma LastIsInk(s: string)
    requires s != "" && !IsUnicodeWhitespace(s[|s| - 1])
    ensures HasInk(s)
  {
  }

  /**
   * The source takes the argument from where the name would end if it followed the
   * backslash at once. It is the text behind the name if and only if it does:
   * a blank in between makes the end of the name a part of the argument.
   */
  lemma ArgumentIsBehindName(line: string)
    requires line != "" && CommandName(line) != ""
    requires var start := NameStart(line, 1); !IsUnicodeWhitespace(line[NameEnd(line, start) - 1])
    ensures var start := NameStart(line, 1);
            ArgumentText(line) == Trim(line[NameEnd(line, start)..]) <==> start == 1
  {
    hide Trim;
    hide NameStart;
    hide NameEnd;
    hide IsUnicodeWhitespace;
    var start := NameStart(line, 1);
    var end := NameEnd(line, start);
    assert CommandName(line) == line[start..end] && start < end;
    if start > 1 {
      var from := 1 + (end - start);
      var before, behind := line[from..end], line[end..];
      assert line[from..] == before + behind;
      assert before[|before| - 1] == line[end - 1];
      InkMakesLonger(before, behind);
    }
  }

  lemma ParsesAs(line: string, start: nat, end: nat, argument: string)
    requires 1 <= start < end <= |line| && line[0] == '\\' && line[start..end] == "d" && line[2..] == argument
    requires NameStart(line, 1) == start && NameEnd(line, start) == end && Trim(argument) == argument
    requires forall k :: 0 <= k < |line| ==> line[k] != '\n' && line[k] != '\r'
    ensures Parse(line, false) == Request(Relations, ParsePattern(argument))
  {
    hide Trim;
    hide NameStart;
    hide NameEnd;
    hide ParsePattern;
  }

  /** The shortest such line: a bare `\ d` asks for the relations named d, not for all. */
  lemma BlankShiftsArgument()
    ensures Parse("\\ d", false) == Request(Relations, Pattern("d"))
    ensures Parse("\\d", false) == Request(Relations, NoPattern)
  {
    var line, bare := "\\ d", "\\d";
    ParsesAs(line, 2, 3, "d");
    ParsesAs(bare, 1, 2, "");
  }
}
