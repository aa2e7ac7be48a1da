/** The IRC line grammar as the server accepts it (its `command_pattern`,
    `nickname_pattern` and `channel_pattern` regular expressions, written
    out as character predicates and a scanner), and the rendering of a
    command back into a line that this grammar parses again. */
module Protocol {
  import opened Wrappers
  import opened Text

  // ---------------------------------------------------------------------
  // Character classes
  // ---------------------------------------------------------------------

  predicate IsLetter(ch: char) { IsUpperAscii(ch) || IsLowerAscii(ch) }

  /** `[a-zA-Z0-9@#*_.+!\[\]{}\\|\-]`: the characters of a source prefix
      and of a middle parameter. */
  predicate IsParamChar(ch: char)
  {
    IsLetter(ch) || IsDigit(ch) || ch in "@#*_.+![]{}\\|-"
  }

  /** `[a-zA-Z\[\]\\`_\^\{\|\}]`: the first character of a nickname. */
  predicate IsNickFirst(ch: char)
  {
    IsLetter(ch) || ch in "[]\\`_^{|}"
  }

  /** `[a-zA-Z0-9\[\]\\`_\^\{\|\}\-]`: the later characters of a nickname. */
  predicate IsNickRest(ch: char)
  {
    IsNickFirst(ch) || IsDigit(ch) || ch == '-'
  }

  /** `[^\s,\x00-\x1f]`: the later characters of a channel name. */
  predicate IsChannelChar(ch: char)
  {
    !IsSpace(ch) && ch != ',' && ch as int > 0x1f
  }

  predicate IsSpaceBar(ch: char) { ch == ' ' }

  predicate NoNewline(s: string) { forall i | 0 <= i < |s| :: s[i] != '\n' }

  /** Python's `$` also matches just before a newline that ends the string,
      so every anchored pattern here accepts one extra trailing "\n". */
  predicate AllowsTrailingNewline(s: string, shape: string -> bool)
  {
    shape(s) || (|s| >= 1 && s[|s| - 1] == '\n' && shape(s[..|s| - 1]))
  }

  // ---------------------------------------------------------------------
  // Validators
  // ---------------------------------------------------------------------

  predicate NicknameShape(s: string)
  {
    1 <= |s| <= 30 && IsNickFirst(s[0]) && forall i | 1 <= i < |s| :: IsNickRest(s[i])
  }

  predicate ChannelShape(s: string)
  {
    2 <= |s| <= 50 && (s[0] == '#' || s[0] == '&') && forall i | 1 <= i < |s| :: IsChannelChar(s[i])
  }

  /** `is_valid_nickname`: a match of `nickname_pattern`. */
  predicate IsValidNickname(s: string)
  {
    AllowsTrailingNewline(s, NicknameShape)
  }

  /** `is_valid_channel`: a match of `channel_pattern`. */
  predicate IsValidChannel(s: string)
  {
    AllowsTrailingNewline(s, ChannelShape)
  }

  /** For a name without a newline (every name the dispatcher validates is
      a middle parameter or a comma-separated piece of one), validity is the
      character-class and length rule and nothing else. */
  lemma ValidNicknameIff(s: string)
    requires NoNewline(s)
    ensures IsValidNickname(s) <==>
      1 <= |s| <= 30 && IsNickFirst(s[0]) && forall i | 1 <= i < |s| :: IsNickRest(s[i])
  {
    if |s| >= 1 { assert s[|s| - 1] != '\n'; }
  }

  lemma ValidChannelIff(s: string)
    requires NoNewline(s)
    ensures IsValidChannel(s) <==>
      2 <= |s| <= 50 && (s[0] == '#' || s[0] == '&') &&
      forall i | 1 <= i < |s| :: !IsSpace(s[i]) && s[i] != ',' && s[i] as int > 0x1f
  {
    if |s| >= 1 { assert s[|s| - 1] != '\n'; }
  }

  /** The trailing-newline case of `$`: "bob\n" is a valid nickname. */
  lemma NewlineEndedNickname()
    ensures IsValidNickname("bob\n") && !NicknameShape("bob\n")
  {
    assert "bob\n"[..3] == "bob";
  }

  /** A valid nickname never contains the identity delimiters '!' and '@',
      nor a space or a comma. */
  lemma NicknameHasNoDelimiters(s: string)
    requires IsValidNickname(s) && NoNewline(s)
    ensures forall i | 0 <= i < |s| :: s[i] !in "!@ ,:"
  {
    ValidNicknameIff(s);
  }

  // ---------------------------------------------------------------------
  // Decoding one line
  // ---------------------------------------------------------------------

  /** A decoded line: `Command.source`, `.command`, `.subcommands` and
      `.content` of the server. */
  datatype Command = Command(
    source: Option<string>,
    verb: string,
    params: Option<seq<string>>,
    content: Option<string>)

  predicate IsParamWord(w: string)
  {
    |w| >= 1 && forall i | 0 <= i < |w| :: IsParamChar(w[i])
  }

  predicate AllParamWords(ws: seq<string>)
  {
    forall k | 0 <= k < |ws| :: IsParamWord(ws[k])
  }

  /** What any decoded line looks like. */
  predicate WellFormed(cmd: Command)
  {
    && (cmd.source.Some? ==> IsParamWord(cmd.source.value))
    && |cmd.verb| >= 1 && (forall i | 0 <= i < |cmd.verb| :: IsUpperAscii(cmd.verb[i]))
    && (cmd.params.Some? ==>
          |cmd.params.value| >= 1 && AllParamWords(cmd.params.value))
    && (cmd.content.Some? ==> NoNewline(cmd.content.value))
  }

  /** The end of the longest run of characters satisfying `p` that starts
      at `i` (a greedy `[...]*`); RunEndSpec says what it computes. */
  function RunEnd(s: string, i: nat, p: char -> bool): (j: nat)
    requires i <= |s|
    ensures i <= j <= |s|
    decreases |s| - i
  {
    if i == |s| || !p(s[i]) then i else RunEnd(s, i + 1, p)
  }

  /** Every character of the run satisfies `p`, and the run cannot be
      extended. */
  lemma {:induction false} RunEndSpec(s: string, i: nat, p: char -> bool)
    requires i <= |s|
    ensures var j := RunEnd(s, i, p);
            (forall k | i <= k < j :: p(s[k])) && (j < |s| ==> !p(s[j]))
    decreases |s| - i
  {
    if i < |s| && p(s[i]) {
      RunEndSpec(s, i + 1, p);
    }
  }

  /** A maximal run is determined by where it starts. */
  lemma {:induction false} RunEndAt(s: string, i: nat, k: nat, p: char -> bool)
    requires i <= k <= |s|
    requires forall m | i <= m < k :: p(s[m])
    requires k < |s| ==> !p(s[k])
    ensures RunEnd(s, i, p) == k
    decreases k - i
  {
    if i < k {
      assert p(s[i]);
      RunEndAt(s, i + 1, k, p);
    }
  }

  function ParamsOf(acc: seq<string>): Option<seq<string>>
  {
    if acc == [] then None else Some(acc)
  }

  /** `Command(text)`: the whole line must match `command_pattern`;
      otherwise the line is malformed (`SyntaxError`). */
  function Parse(line: string): (r: Result<Command>)
    ensures r.Ok? ==> WellFormed(r.value)
  {
    var t := if |line| > 0 && line[|line| - 1] == '\n' then line[..|line| - 1] else line;
    ParseBody(t)
  }

  /** The optional `:source ` prefix. */
  function ParseBody(t: string): (r: Result<Command>)
    ensures r.Ok? ==> WellFormed(r.value)
  {
    if |t| > 0 && t[0] == ':' then
      var e := RunEnd(t, 1, IsParamChar);
      RunEndSpec(t, 1, IsParamChar);
      if 1 < e < |t| && t[e] == ' ' then ParseVerb(t[e + 1..], Some(t[1..e]))
      else Err("Invalid message received!")
    else ParseVerb(t, None)
  }

  /** The verb: a non-empty run of letters, upper-cased. */
  function ParseVerb(r: string, src: Option<string>): (res: Result<Command>)
    requires src.Some? ==> IsParamWord(src.value)
    ensures res.Ok? ==> WellFormed(res.value)
  {
    var e := RunEnd(r, 0, IsLetter);
    RunEndSpec(r, 0, IsLetter);
    if e == 0 then Err("Invalid message received!")
    else ParseParams(r[e..], src, Upper(r[..e]), [])
  }

  /** The rest of the line after the verb: middle parameters, each one or
      more spaces then a run of parameter characters, then an optional
      content introduced by spaces and ':' that runs to the end of the
      line. */
  function ParseParams(r: string, src: Option<string>, verb: string, acc: seq<string>): (res: Result<Command>)
    requires src.Some? ==> IsParamWord(src.value)
    requires |verb| >= 1 && forall k | 0 <= k < |verb| :: IsUpperAscii(verb[k])
    requires AllParamWords(acc)
    ensures res.Ok? ==> WellFormed(res.value)
    ensures res.Ok? ==> res.value.source == src && res.value.verb == verb
    decreases |r|
  {
    if r == [] then Ok(Command(src, verb, ParamsOf(acc), None))
    else
      var j := RunEnd(r, 0, IsSpaceBar);
      if j == 0 || j == |r| then Err("Invalid message received!")
      else if r[j] == ':' then
        if NoNewline(r[j + 1..]) then Ok(Command(src, verb, ParamsOf(acc), Some(r[j + 1..])))
        else Err("Invalid message received!")
      else
        var k := RunEnd(r, j, IsParamChar);
        RunEndSpec(r, j, IsParamChar);
        if k == j then Err("Invalid message received!")
        else ParseParams(r[k..], src, verb, acc + [r[j..k]])
  }

  // ---------------------------------------------------------------------
  // Rendering a command as a line (the inverse of Parse)
  // ---------------------------------------------------------------------

  function ParamsText(ps: seq<string>): string
  {
    if ps == [] then "" else " " + ps[0] + ParamsText(ps[1..])
  }

  function ContentText(content: Option<string>): string
  {
    if content.Some? then " :" + content.value else ""
  }

  /** The line after the source: `VERB[ param]*[ :content]`. */
  function Body(cmd: Command): string
  {
    cmd.verb + (ParamsText(if cmd.params.Some? then cmd.params.value else []) + ContentText(cmd.content))
  }

  /** The line `[:source ]VERB[ param]*[ :content]`. */
  function Format(cmd: Command): string
  {
    if cmd.source.Some? then ":" + cmd.source.value + " " + Body(cmd) else Body(cmd)
  }

  /** Scanning one middle parameter: one space, then the parameter, which
      ends at the first character that is not a parameter character (the
      next space, say) or at the end of the line. */
  lemma {:induction false} ScanParam(w: string, rest: string)
    requires IsParamWord(w) && (rest == [] || !IsParamChar(rest[0]))
    ensures var r := " " + w + rest;
            RunEnd(r, 0, IsSpaceBar) == 1 && r[1] != ':' &&
            RunEnd(r, 1, IsParamChar) == 1 + |w| && r[1..1 + |w|] == w && r[1 + |w|..] == rest
  {
    var r := " " + w + rest;
    assert r[1] == w[0];
    RunEndAt(r, 0, 1, IsSpaceBar);
    forall m | 1 <= m < 1 + |w| ensures IsParamChar(r[m]) {
      assert r[m] == w[m - 1];
    }
    if 1 + |w| < |r| {
      assert r[1 + |w|] == rest[0];
    }
    RunEndAt(r, 1, 1 + |w|, IsParamChar);
    assert r[1..1 + |w|] == w;
    assert r[1 + |w|..] == rest;
  }

  /** Unfolding the scanner over one middle parameter. */
  lemma {:induction false} ParseParamsStep(src: Option<string>, verb: string, acc: seq<string>, w: string, rest: string)
    requires src.Some? ==> IsParamWord(src.value)
    requires |verb| >= 1 && forall k | 0 <= k < |verb| :: IsUpperAscii(verb[k])
    requires AllParamWords(acc)
    requires IsParamWord(w) && (rest == [] || rest[0] == ' ')
    ensures AllParamWords(acc + [w])
    ensures ParseParams(" " + w + rest, src, verb, acc) == ParseParams(rest, src, verb, acc + [w])
  {
    ScanParam(w, rest);
  }

  /** Unfolding the scanner over the content, or the end of the line. */
  lemma {:induction false} ParseParamsLast(src: Option<string>, verb: string, acc: seq<string>, content: Option<string>)
    requires src.Some? ==> IsParamWord(src.value)
    requires |verb| >= 1 && forall k | 0 <= k < |verb| :: IsUpperAscii(verb[k])
    requires AllParamWords(acc)
    requires content.Some? ==> NoNewline(content.value)
    ensures ParseParams(ContentText(content), src, verb, acc) == Ok(Command(src, verb, ParamsOf(acc), content))
  {
    if content.Some? {
      var r := ContentText(content);
      assert r[0] == ' ' && r[1] == ':';
      RunEndAt(r, 0, 1, IsSpaceBar);
      assert r[2..] == content.value;
    }
  }

  lemma {:induction false} AfterParamIsSpace(ps: seq<string>, content: Option<string>)
    requires ps != []
    ensures var rest := ParamsText(ps[1..]) + ContentText(content); rest == [] || rest[0] == ' '
  {
  }

  lemma ShiftFirst<T>(acc: seq<T>, ps: seq<T>)
    requires ps != []
    ensures acc + [ps[0]] + ps[1..] == acc + ps
  {
    assert ps == [ps[0]] + ps[1..];
  }

  /** Scanning rendered parameters and content gives them back. */
  lemma {:induction false} ParseParamsFormat(src: Option<string>, verb: string, acc: seq<string>,
                                             ps: seq<string>, content: Option<string>)
    requires src.Some? ==> IsParamWord(src.value)
    requires |verb| >= 1 && forall k | 0 <= k < |verb| :: IsUpperAscii(verb[k])
    requires AllParamWords(acc) && AllParamWords(ps)
    requires content.Some? ==> NoNewline(content.value)
    ensures ParseParams(ParamsText(ps) + ContentText(content), src, verb, acc)
         == Ok(Command(src, verb, ParamsOf(acc + ps), content))
    decreases |ps|
  {
    if ps == [] {
      assert acc + ps == acc;
      assert ParamsText(ps) + ContentText(content) == ContentText(content);
      ParseParamsLast(src, verb, acc, content);
    } else {
      var w := ps[0];
      var rest := ParamsText(ps[1..]) + ContentText(content);
      assert ParamsText(ps) + ContentText(content) == " " + w + rest;
      AfterParamIsSpace(ps, content);
      ParseParamsStep(src, verb, acc, w, rest);
      ShiftFirst(acc, ps);
      ParseParamsFormat(src, verb, acc + [w], ps[1..], content);
    }
  }

  lemma UpperOfUpper(v: string)
    requires forall k | 0 <= k < |v| :: IsUpperAscii(v[k])
    ensures Upper(v) == v
  {
  }

  /** Decoding a rendered command gives that command back: the scanner
      loses nothing that the grammar can carry. */
  lemma {:induction false} FormatRoundTrip(cmd: Command)
    requires WellFormed(cmd)
    ensures Parse(Format(cmd)) == Ok(cmd)
  {
    NoNewlineAtEnd(cmd);
    assert Parse(Format(cmd)) == ParseBody(Format(cmd));
    SkipSource(cmd);
    BodyRoundTrip(cmd);
  }

  /** The scanner steps over a rendered source prefix. */
  lemma {:induction false} SkipSource(cmd: Command)
    requires WellFormed(cmd)
    ensures ParseBody(Format(cmd)) == ParseVerb(Body(cmd), cmd.source)
  {
    if cmd.source.Some? {
      SourceThenBody(cmd.source.value, Body(cmd));
    } else {
      assert Body(cmd)[0] == cmd.verb[0];
    }
  }

  /** The scanner reads the verb, parameters and content back. */
  lemma {:induction false} BodyRoundTrip(cmd: Command)
    requires WellFormed(cmd)
    ensures ParseVerb(Body(cmd), cmd.source) == Ok(cmd)
  {
    var ps := if cmd.params.Some? then cmd.params.value else [];
    var tail := ParamsText(ps) + ContentText(cmd.content);
    ParseVerbFormat(cmd.verb, tail, cmd.source);
    ParseParamsFormat(cmd.source, cmd.verb, [], ps, cmd.content);
    assert [] + ps == ps;
    assert ParamsOf(ps) == cmd.params;
  }

  lemma {:induction false} ParseVerbFormat(verb: string, tail: string, src: Option<string>)
    requires |verb| >= 1 && forall k | 0 <= k < |verb| :: IsUpperAscii(verb[k])
    requires tail == [] || tail[0] == ' '
    requires src.Some? ==> IsParamWord(src.value)
    ensures ParseVerb(verb + tail, src) == ParseParams(tail, src, verb, [])
  {
    VerbThenTail(verb, tail);
    UpperOfUpper(verb);
  }

  /** A line with no source and no final newline goes straight from its
      upper-case verb to the scan of its parameters. */
  lemma ParsePlain(verb: string, tail: string)
    requires |verb| >= 1 && forall k | 0 <= k < |verb| :: IsUpperAscii(verb[k])
    requires tail == [] || (tail[0] == ' ' && tail[|tail| - 1] != '\n')
    ensures Parse(verb + tail) == ParseParams(tail, None, verb, [])
  {
    var line := verb + tail;
    assert line[0] == verb[0];
    assert line[|line| - 1] == if tail == [] then verb[|verb| - 1] else tail[|tail| - 1];
    assert Parse(line) == ParseBody(line);
    assert ParseBody(line) == ParseVerb(line, None);
    ParseVerbFormat(verb, tail, None);
  }

  /** Scanning the verb of a line: a run of letters ends where the rest
      of the line starts. */
  lemma {:induction false} VerbThenTail(verb: string, tail: string)
    requires |verb| >= 1 && forall k | 0 <= k < |verb| :: IsLetter(verb[k])
    requires tail == [] || tail[0] == ' '
    ensures var r := verb + tail;
            RunEnd(r, 0, IsLetter) == |verb| && r[..|verb|] == verb && r[|verb|..] == tail
  {
    var r := verb + tail;
    forall m | 0 <= m < |verb| ensures IsLetter(r[m]) {
      assert r[m] == verb[m];
    }
    if |verb| < |r| {
      assert r[|verb|] == tail[0];
    }
    RunEndAt(r, 0, |verb|, IsLetter);
    assert r[..|verb|] == verb;
    assert r[|verb|..] == tail;
  }

  /** Scanning the source prefix of a rendered line. */
  lemma {:induction false} SourceThenBody(src: string, body: string)
    requires IsParamWord(src)
    ensures var t := ":" + src + " " + body;
            RunEnd(t, 1, IsParamChar) == |src| + 1 && t[|src| + 1] == ' ' &&
            t[1..|src| + 1] == src && t[|src| + 2..] == body
  {
    var t := ":" + src + " " + body;
    forall m | 1 <= m < |src| + 1 ensures IsParamChar(t[m]) {
      assert t[m] == src[m - 1];
    }
    assert t[|src| + 1] == ' ';
    RunEndAt(t, 1, |src| + 1, IsParamChar);
    assert t[1..|src| + 1] == src;
    assert t[|src| + 2..] == body;
  }

  /** Content that does not end in whitespace (or is absent or empty). */
  predicate EndsSolid(content: Option<string>)
  {
    content.None? || content.value == [] || !IsSpace(content.value[|content.value| - 1])
  }

  /** A rendered line never ends in a newline, and ends in whitespace only
      when its content does. */
  lemma {:induction false} NoNewlineAtEnd(cmd: Command)
    requires WellFormed(cmd)
    ensures |Format(cmd)| > 0 && Format(cmd)[|Format(cmd)| - 1] != '\n'
    ensures EndsSolid(cmd.content) ==> !IsSpace(Format(cmd)[|Format(cmd)| - 1])
  {
    var body := Body(cmd);
    var last := BodyEnd(cmd);
    var f := Format(cmd);
    if cmd.source.Some? {
      assert f == (":" + cmd.source.value + " ") + body;
      LastOfAppend(":" + cmd.source.value + " ", body);
    }
    assert f[|f| - 1] == last;
  }

  /** The last character of the line after the source. */
  lemma BodyEnd(cmd: Command) returns (last: char)
    requires WellFormed(cmd)
    ensures |Body(cmd)| > 0 && Body(cmd)[|Body(cmd)| - 1] == last
    ensures last != '\n' && (EndsSolid(cmd.content) ==> !IsSpace(last))
  {
    var ps := if cmd.params.Some? then cmd.params.value else [];
    var tail := ParamsText(ps) + ContentText(cmd.content);
    var body := Body(cmd);
    assert body == cmd.verb + tail;
    if cmd.content.Some? && cmd.content.value != [] {
      var c := cmd.content.value;
      last := c[|c| - 1];
      assert tail == (ParamsText(ps) + " :") + c;
      LastOfAppend(ParamsText(ps) + " :", c);
      LastOfAppend(cmd.verb, tail);
    } else if cmd.content.Some? {
      last := ':';
      assert tail == ParamsText(ps) + " :";
      LastOfAppend(ParamsText(ps), " :");
      LastOfAppend(cmd.verb, tail);
    } else if ps != [] {
      LastParamNotNewline(ps);
      var p := ParamsText(ps);
      last := p[|p| - 1];
      SolidChar(last);
      assert tail == p;
      LastOfAppend(cmd.verb, tail);
    } else {
      last := cmd.verb[|cmd.verb| - 1];
      SolidChar(last);
      assert tail == [];
      assert body == cmd.verb;
    }
  }

  /** Characters of parameters and verbs are neither line ends nor
      whitespace. */
  lemma SolidChar(ch: char)
    requires IsParamChar(ch) || IsUpperAscii(ch)
    ensures ch != '\n' && !IsSpace(ch)
  {
  }

  /** A rendered line starts with ':' or with the verb's first letter. */
  lemma FirstCharOfFormat(cmd: Command)
    requires WellFormed(cmd)
    ensures |Format(cmd)| > 0 && !IsSpace(Format(cmd)[0])
  {
    assert Body(cmd)[0] == cmd.verb[0];
  }

  /** Rendered parameters carry no newline. */
  lemma {:induction false} ParamsTextNoNewline(ps: seq<string>)
    requires AllParamWords(ps)
    ensures NoNewline(ParamsText(ps))
    decreases |ps|
  {
    if ps != [] {
      ParamsTextNoNewline(ps[1..]);
      var p := ParamsText(ps);
      var w := ps[0];
      forall i | 0 <= i < |p| ensures p[i] != '\n' {
        if 1 <= i < 1 + |w| {
          assert p[i] == w[i - 1];
        } else if i >= 1 + |w| {
          assert p[i] == ParamsText(ps[1..])[i - 1 - |w|];
        }
      }
    }
  }

  /** A well-formed command renders as a single line. */
  lemma FormatNoNewline(cmd: Command)
    requires WellFormed(cmd)
    ensures NoNewline(Format(cmd))
  {
    var ps := if cmd.params.Some? then cmd.params.value else [];
    ParamsTextNoNewline(ps);
    var p := ParamsText(ps);
    var c := ContentText(cmd.content);
    var b := Body(cmd);
    forall i | 0 <= i < |b| ensures b[i] != '\n' {
      if i < |cmd.verb| {
        assert b[i] == cmd.verb[i];
      } else if i < |cmd.verb| + |p| {
        assert b[i] == p[i - |cmd.verb|];
      } else {
        assert b[i] == c[i - |cmd.verb| - |p|];
      }
    }
    if cmd.source.Some? {
      var src := cmd.source.value;
      var f := Format(cmd);
      forall i | 0 <= i < |f| ensures f[i] != '\n' {
        if 1 <= i < 1 + |src| {
          assert f[i] == src[i - 1];
        } else if i >= 2 + |src| {
          assert f[i] == b[i - 2 - |src|];
        }
      }
    }
  }

  lemma {:induction false} LastParamNotNewline(ps: seq<string>)
    requires ps != [] && forall k | 0 <= k < |ps| :: IsParamWord(ps[k])
    ensures var p := ParamsText(ps); |p| > 0 && IsParamChar(p[|p| - 1])
  {
    if ps[1..] == [] {
      var w := ps[0];
      assert ParamsText(ps) == " " + w;
    } else {
      LastParamNotNewline(ps[1..]);
      assert ParamsText(ps) == " " + ps[0] + ParamsText(ps[1..]);
    }
  }

  // ---------------------------------------------------------------------
  // Names the validators accept but the line grammar cannot carry
  // ---------------------------------------------------------------------

  /** '^' is a nickname character but not a parameter character, so a
      NICK line naming a valid nickname with '^' does not parse. */
  lemma CaretNickUnreachable()
    ensures IsValidNickname("a^b")
    ensures Parse("NICK a^b").Err?
  {
    assert NicknameShape("a^b");
    var r := " a^b";
    RunEndAt(r, 0, 1, IsSpaceBar);
    RunEndAt(r, 1, 2, IsParamChar);
    assert r[2..] == "^b";
    RunEndAt("^b", 0, 0, IsSpaceBar);
    VerbThenTail("NICK", r);
    UpperOfUpper("NICK");
  }

  /** '&' starts a valid channel name but is not a parameter character, so
      no JOIN line can name an '&' channel. */
  lemma AmpersandChannelUnreachable()
    ensures IsValidChannel("&a")
    ensures Parse("JOIN &a").Err?
  {
    assert ChannelShape("&a");
    var r := " &a";
    RunEndAt(r, 0, 1, IsSpaceBar);
    RunEndAt(r, 1, 1, IsParamChar);
    assert r[1] == '&';
    assert ParseParams(r, None, "JOIN", []).Err?;
    assert "JOIN &a" == "JOIN" + r;
    VerbThenTail("JOIN", r);
    UpperOfUpper("JOIN");
  }

  /** ',' is not a parameter character either, so no line whose first
      parameter is a comma-separated list parses: a JOIN, PART or PRIVMSG
      never reaches its handler with more than one name. */
  lemma CommaListUnreachable(verb: string, a: string, b: string)
    requires |verb| >= 1 && forall k | 0 <= k < |verb| :: IsUpperAscii(verb[k])
    requires IsParamWord(a) && IsParamWord(b)
    ensures Parse(verb + (" " + a + "," + b)).Err?
  {
    var head := " " + a + ",";
    CommaStopsParams(verb, a, b);
    assert (head + b)[0] == ' ' && (head + b)[|head| + |b| - 1] == b[|b| - 1];
    ParsePlain(verb, head + b);
  }

  /** The parameter scan stops at the comma, which is neither a space nor
      a parameter character. */
  lemma CommaStopsParams(verb: string, a: string, b: string)
    requires |verb| >= 1 && forall k | 0 <= k < |verb| :: IsUpperAscii(verb[k])
    requires IsParamWord(a)
    ensures ParseParams(" " + a + "," + b, None, verb, []).Err?
  {
    var rest := "," + b;
    ScanParam(a, rest);
    assert " " + a + "," + b == " " + a + rest;
    RunEndAt(rest, 0, 0, IsSpaceBar);
  }

  /** A space after the last parameter makes the whole line malformed. */
  lemma TrailingSpaceRejected()
    ensures Parse("NICK bob ").Err?
  {
    var r := " bob ";
    RunEndAt(r, 0, 1, IsSpaceBar);
    RunEndAt(r, 1, 4, IsParamChar);
    assert r[4..] == " ";
    RunEndAt(" ", 0, 1, IsSpaceBar);
    VerbThenTail("NICK", r);
    UpperOfUpper("NICK");
  }
}
