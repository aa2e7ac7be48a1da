/** The line grammar of the server's `command_pattern`, written as a
    relation between a line and the command it denotes rather than as a
    scanner: a line spells a command when it is the optional `:source `
    prefix, then the verb in any mixture of cases, then each middle
    parameter after one or more spaces, then the optional content after
    one or more spaces and ':', then at most one final "\n". The lemmas
    here prove that the scanner `Parse` accepts exactly the lines that
    spell some command, and returns the command they spell. */
module Grammar {
  import opened Wrappers
  import opened Text
  import opened Protocol

  /** `n` blanks. */
  function Spaces(n: nat): (s: string)
    ensures |s| == n && forall i | 0 <= i < n :: s[i] == ' '
  {
    seq(n, i => ' ')
  }

  /** The choices a line makes that the command does not record: how the
      verb is spelt, how many spaces precede each middle parameter and the
      content, and whether a final "\n" follows. */
  datatype Spelling = Spelling(verb: string, gaps: seq<nat>, contentGap: nat, newline: bool)

  function ParamList(cmd: Command): seq<string>
  {
    if cmd.params.Some? then cmd.params.value else []
  }

  /** A spelling fits a command when the command is one the grammar can
      carry, the verb is a run of letters that upper-cases to the
      command's verb, and every gap is at least one space. */
  predicate Fits(cmd: Command, sp: Spelling)
  {
    && WellFormed(cmd)
    && |sp.verb| >= 1 && (forall i | 0 <= i < |sp.verb| :: IsLetter(sp.verb[i]))
    && Upper(sp.verb) == cmd.verb
    && |sp.gaps| == |ParamList(cmd)| && (forall k | 0 <= k < |sp.gaps| :: sp.gaps[k] >= 1)
    && sp.contentGap >= 1
  }

  function SourcePrefix(source: Option<string>): string
  {
    if source.Some? then ":" + source.value + " " else ""
  }

  function SpacedParams(ps: seq<string>, gaps: seq<nat>): string
    requires |gaps| == |ps|
  {
    if ps == [] then "" else Spaces(gaps[0]) + ps[0] + SpacedParams(ps[1..], gaps[1..])
  }

  function SpacedContent(content: Option<string>, gap: nat): string
  {
    if content.Some? then Spaces(gap) + ":" + content.value else ""
  }

  /** The line a command and a spelling of it make. */
  function Spelled(cmd: Command, sp: Spelling): string
    requires |sp.gaps| == |ParamList(cmd)|
  {
    Unterminated(cmd, sp) + (if sp.newline then "\n" else "")
  }

  /** `line` matches `command_pattern` with the groups that make `cmd`. */
  ghost predicate Matches(line: string, cmd: Command)
  {
    exists sp :: Fits(cmd, sp) && line == Spelled(cmd, sp)
  }

  // ---------------------------------------------------------------------
  // A spelled line scans back to its command
  // ---------------------------------------------------------------------

  /** Scanning one middle parameter after `n` spaces. */
  lemma {:induction false} ScanGapParam(n: nat, w: string, rest: string)
    requires n >= 1 && IsParamWord(w) && (rest == [] || rest[0] == ' ')
    ensures var r := Spaces(n) + w + rest;
            RunEnd(r, 0, IsSpaceBar) == n && n < |r| && r[n] != ':' &&
            RunEnd(r, n, IsParamChar) == n + |w| && r[n..n + |w|] == w && r[n + |w|..] == rest
  {
    var r := Spaces(n) + w + rest;
    forall m | 0 <= m < n ensures IsSpaceBar(r[m]) {
      assert r[m] == Spaces(n)[m];
    }
    assert r[n] == w[0];
    RunEndAt(r, 0, n, IsSpaceBar);
    forall m | n <= m < n + |w| ensures IsParamChar(r[m]) {
      assert r[m] == w[m - n];
    }
    if n + |w| < |r| {
      assert r[n + |w|] == rest[0];
    }
    RunEndAt(r, n, n + |w|, IsParamChar);
    assert r[n..n + |w|] == w;
    assert r[n + |w|..] == rest;
  }

  /** Scanning the content after `gap` spaces, or the end of the line. */
  lemma {:induction false} ScanContent(src: Option<string>, verb: string, acc: seq<string>,
                                       content: Option<string>, gap: nat)
    requires src.Some? ==> IsParamWord(src.value)
    requires |verb| >= 1 && forall k | 0 <= k < |verb| :: IsUpperAscii(verb[k])
    requires AllParamWords(acc)
    requires gap >= 1 && (content.Some? ==> NoNewline(content.value))
    ensures ParseParams(SpacedContent(content, gap), src, verb, acc) == Ok(Command(src, verb, ParamsOf(acc), content))
  {
    if content.Some? {
      var r := SpacedContent(content, gap);
      forall m | 0 <= m < gap ensures IsSpaceBar(r[m]) {
        assert r[m] == Spaces(gap)[m];
      }
      assert r[gap] == ':';
      RunEndAt(r, 0, gap, IsSpaceBar);
      assert r[gap + 1..] == content.value;
    }
  }

  /** What follows the verb, or a parameter, starts with a space. */
  lemma {:induction false} TailStartsWithSpace(ps: seq<string>, gaps: seq<nat>, content: Option<string>, gap: nat)
    requires |gaps| == |ps| && (forall k | 0 <= k < |gaps| :: gaps[k] >= 1) && gap >= 1
    ensures var r := SpacedParams(ps, gaps) + SpacedContent(content, gap); r == [] || r[0] == ' '
  {
    if ps != [] {
      assert (SpacedParams(ps, gaps) + SpacedContent(content, gap))[0] == Spaces(gaps[0])[0];
    } else if content.Some? {
      assert (SpacedParams(ps, gaps) + SpacedContent(content, gap))[0] == Spaces(gap)[0];
    }
  }

  /** Unfolding the scanner over one spelled middle parameter. */
  lemma {:induction false} GapParamStep(src: Option<string>, verb: string, acc: seq<string>,
                                        n: nat, w: string, rest: string)
    requires src.Some? ==> IsParamWord(src.value)
    requires |verb| >= 1 && forall k | 0 <= k < |verb| :: IsUpperAscii(verb[k])
    requires AllParamWords(acc)
    requires n >= 1 && IsParamWord(w) && (rest == [] || rest[0] == ' ')
    ensures AllParamWords(acc + [w])
    ensures ParseParams(Spaces(n) + w + rest, src, verb, acc) == ParseParams(rest, src, verb, acc + [w])
  {
    ScanGapParam(n, w, rest);
  }

  /** Scanning spelled parameters and content gives them back. */
  lemma {:induction false} ParseParamsSpelled(src: Option<string>, verb: string, acc: seq<string>,
                                              ps: seq<string>, gaps: seq<nat>, content: Option<string>, gap: nat)
    requires src.Some? ==> IsParamWord(src.value)
    requires |verb| >= 1 && forall k | 0 <= k < |verb| :: IsUpperAscii(verb[k])
    requires AllParamWords(acc) && AllParamWords(ps)
    requires |gaps| == |ps| && (forall k | 0 <= k < |gaps| :: gaps[k] >= 1)
    requires gap >= 1 && (content.Some? ==> NoNewline(content.value))
    ensures ParseParams(SpacedParams(ps, gaps) + SpacedContent(content, gap), src, verb, acc)
         == Ok(Command(src, verb, ParamsOf(acc + ps), content))
    decreases |ps|
  {
    if ps == [] {
      assert acc + ps == acc;
      assert SpacedParams(ps, gaps) + SpacedContent(content, gap) == SpacedContent(content, gap);
      ScanContent(src, verb, acc, content, gap);
    } else {
      var w := ps[0];
      var rest := SpacedParams(ps[1..], gaps[1..]) + SpacedContent(content, gap);
      assert SpacedParams(ps, gaps) + SpacedContent(content, gap) == Spaces(gaps[0]) + w + rest;
      TailStartsWithSpace(ps[1..], gaps[1..], content, gap);
      GapParamStep(src, verb, acc, gaps[0], w, rest);
      ShiftFirst(acc, ps);
      ParseParamsSpelled(src, verb, acc + [w], ps[1..], gaps[1..], content, gap);
    }
  }

  lemma NoNewlineConcat(a: string, b: string)
    requires NoNewline(a) && NoNewline(b)
    ensures NoNewline(a + b)
  {
    forall i | 0 <= i < |a + b| ensures (a + b)[i] != '\n' {
      if i >= |a| {
        assert (a + b)[i] == b[i - |a|];
      }
    }
  }

  lemma {:induction false} SpacedParamsNoNewline(ps: seq<string>, gaps: seq<nat>)
    requires AllParamWords(ps) && |gaps| == |ps|
    ensures NoNewline(SpacedParams(ps, gaps))
    decreases |ps|
  {
    if ps != [] {
      SpacedParamsNoNewline(ps[1..], gaps[1..]);
      assert NoNewline(ps[0]);
      NoNewlineConcat(Spaces(gaps[0]), ps[0]);
      NoNewlineConcat(Spaces(gaps[0]) + ps[0], SpacedParams(ps[1..], gaps[1..]));
    }
  }

  /** Everything before the optional final "\n" is free of newlines. */
  lemma SpelledBodyNoNewline(cmd: Command, sp: Spelling)
    requires Fits(cmd, sp)
    ensures NoNewline(Unterminated(cmd, sp))
  {
    var ps := ParamList(cmd);
    assert AllParamWords(ps);
    if cmd.source.Some? {
      assert NoNewline(cmd.source.value);
      NoNewlineConcat(":", cmd.source.value);
      NoNewlineConcat(":" + cmd.source.value, " ");
    }
    NoNewlineConcat(SourcePrefix(cmd.source), sp.verb);
    SpacedParamsNoNewline(ps, sp.gaps);
    NoNewlineConcat(SourcePrefix(cmd.source) + sp.verb, SpacedParams(ps, sp.gaps));
    if cmd.content.Some? {
      NoNewlineConcat(Spaces(sp.contentGap), ":");
      NoNewlineConcat(Spaces(sp.contentGap) + ":", cmd.content.value);
    }
    NoNewlineConcat(SourcePrefix(cmd.source) + sp.verb + SpacedParams(ps, sp.gaps),
                    SpacedContent(cmd.content, sp.contentGap));
  }

  /** The line without its optional final "\n". */
  function Unterminated(cmd: Command, sp: Spelling): string
    requires |sp.gaps| == |ParamList(cmd)|
  {
    SourcePrefix(cmd.source) + sp.verb + SpacedParams(ParamList(cmd), sp.gaps) +
    SpacedContent(cmd.content, sp.contentGap)
  }

  /** The scanner drops one final "\n" and nothing else. */
  lemma StripNewline(t: string, nl: bool)
    requires |t| > 0 && t[|t| - 1] != '\n'
    ensures Parse(t + (if nl then "\n" else "")) == ParseBody(t)
  {
    var line := t + (if nl then "\n" else "");
    if nl {
      assert line[..|line| - 1] == t;
    } else {
      assert line == t;
    }
  }

  /** The scanner steps over a spelled source prefix. */
  lemma SkipSpelledSource(src: Option<string>, body: string)
    requires src.Some? ==> IsParamWord(src.value)
    requires |body| > 0 && IsLetter(body[0])
    ensures ParseBody(SourcePrefix(src) + body) == ParseVerb(body, src)
  {
    if src.Some? {
      assert SourcePrefix(src) + body == ":" + src.value + " " + body;
      SourceThenBody(src.value, body);
    } else {
      assert SourcePrefix(src) + body == body;
      assert body[0] != ':';
    }
  }

  /** The scanner reads a spelled verb and upper-cases it. */
  lemma SpelledVerb(v: string, tail: string, src: Option<string>)
    requires |v| >= 1 && forall k | 0 <= k < |v| :: IsLetter(v[k])
    requires tail == [] || tail[0] == ' '
    requires src.Some? ==> IsParamWord(src.value)
    ensures forall k | 0 <= k < |Upper(v)| :: IsUpperAscii(Upper(v)[k])
    ensures ParseVerb(v + tail, src) == ParseParams(tail, src, Upper(v), [])
  {
    VerbThenTail(v, tail);
  }

  /** Every spelling of a command is accepted and decodes to that command. */
  lemma SpelledParses(cmd: Command, sp: Spelling)
    requires Fits(cmd, sp)
    ensures Parse(Spelled(cmd, sp)) == Ok(cmd)
  {
    var ps := ParamList(cmd);
    var tail := SpacedParams(ps, sp.gaps) + SpacedContent(cmd.content, sp.contentGap);
    var body := sp.verb + tail;
    var t := Unterminated(cmd, sp);
    assert t == SourcePrefix(cmd.source) + body;
    assert Spelled(cmd, sp) == t + (if sp.newline then "\n" else "");
    SpelledBodyNoNewline(cmd, sp);
    StripNewline(t, sp.newline);
    assert body[0] == sp.verb[0];
    SkipSpelledSource(cmd.source, body);
    TailStartsWithSpace(ps, sp.gaps, cmd.content, sp.contentGap);
    SpelledVerb(sp.verb, tail, cmd.source);
    ParseParamsSpelled(cmd.source, cmd.verb, [], ps, sp.gaps, cmd.content, sp.contentGap);
    assert [] + ps == ps;
  }

  // ---------------------------------------------------------------------
  // An accepted line spells the command it decodes to
  // ---------------------------------------------------------------------

  /** One step of the scanner on an accepted, non-empty rest of line: a
      gap of `j` spaces, then either ':' and the content, or the middle
      parameter `r[j..k]`. */
  lemma {:induction false} ParamsFront(r: string, src: Option<string>, verb: string, acc: seq<string>)
    returns (j: nat, k: nat)
    requires src.Some? ==> IsParamWord(src.value)
    requires |verb| >= 1 && forall k | 0 <= k < |verb| :: IsUpperAscii(verb[k])
    requires AllParamWords(acc)
    requires r != [] && ParseParams(r, src, verb, acc).Ok?
    ensures 1 <= j < |r| && j <= k <= |r| && r[..j] == Spaces(j)
    ensures r[j] == ':' ==>
              (k == j && NoNewline(r[j + 1..]) &&
               ParseParams(r, src, verb, acc) == Ok(Command(src, verb, ParamsOf(acc), Some(r[j + 1..]))))
    ensures r[j] != ':' ==>
              (j < k && IsParamWord(r[j..k]) && AllParamWords(acc + [r[j..k]]) &&
               ParseParams(r, src, verb, acc) == ParseParams(r[k..], src, verb, acc + [r[j..k]]))
  {
    j := RunEnd(r, 0, IsSpaceBar);
    RunEndSpec(r, 0, IsSpaceBar);
    assert r[..j] == Spaces(j);
    if r[j] == ':' {
      k := j;
    } else {
      k := RunEnd(r, j, IsParamChar);
      RunEndSpec(r, j, IsParamChar);
    }
  }

  /** Reading the gaps, parameters and content off what follows the verb. */
  lemma {:induction false} ParamsSpelling(r: string, src: Option<string>, verb: string, acc: seq<string>, cmd: Command)
    returns (ps: seq<string>, gaps: seq<nat>, gap: nat)
    requires src.Some? ==> IsParamWord(src.value)
    requires |verb| >= 1 && forall k | 0 <= k < |verb| :: IsUpperAscii(verb[k])
    requires AllParamWords(acc)
    requires ParseParams(r, src, verb, acc) == Ok(cmd)
    ensures cmd.params == ParamsOf(acc + ps) && |gaps| == |ps| && gap >= 1
    ensures forall k | 0 <= k < |gaps| :: gaps[k] >= 1
    ensures r == SpacedParams(ps, gaps) + SpacedContent(cmd.content, gap)
    decreases |r|
  {
    if r == [] {
      ps, gaps, gap := [], [], 1;
      assert acc + ps == acc;
    } else {
      var j, k := ParamsFront(r, src, verb, acc);
      if r[j] == ':' {
        ps, gaps, gap := [], [], j;
        assert acc + ps == acc;
        Slices(r, j, j + 1);
        assert r[j..j + 1] == ":";
      } else {
        var w := r[j..k];
        var ps', gaps', gap' := ParamsSpelling(r[k..], src, verb, acc + [w], cmd);
        ps, gaps, gap := [w] + ps', [j] + gaps', gap';
        assert ps[0] == w && ps[1..] == ps' && gaps[1..] == gaps';
        ShiftFirst(acc, ps);
        Slices(r, j, k);
        assert SpacedParams(ps, gaps) == Spaces(j) + w + SpacedParams(ps', gaps');
        Regroup3(Spaces(j) + w, SpacedParams(ps', gaps'), SpacedContent(cmd.content, gap));
      }
    }
  }

  /** Reading the optional final "\n" off a line. */
  lemma NewlineSpelling(line: string) returns (t: string, nl: bool)
    ensures line == t + (if nl then "\n" else "") && Parse(line) == ParseBody(t)
  {
    nl := |line| > 0 && line[|line| - 1] == '\n';
    t := if nl then line[..|line| - 1] else line;
    if !nl {
      assert line == t + "";
    }
  }

  /** Reading the optional source prefix off an accepted line. */
  lemma SourceSpelling(t: string) returns (src: Option<string>, r: string)
    requires ParseBody(t).Ok?
    ensures (src.Some? ==> IsParamWord(src.value)) && t == SourcePrefix(src) + r
    ensures ParseBody(t) == ParseVerb(r, src)
  {
    if |t| > 0 && t[0] == ':' {
      var e := RunEnd(t, 1, IsParamChar);
      RunEndSpec(t, 1, IsParamChar);
      src := Some(t[1..e]);
      r := t[e + 1..];
      assert t == ":" + t[1..e] + " " + r;
    } else {
      src := None;
      r := t;
    }
  }

  /** Reading the verb's spelling off what follows the source. */
  lemma VerbSpelling(r: string, src: Option<string>) returns (v: string, tail: string)
    requires src.Some? ==> IsParamWord(src.value)
    requires ParseVerb(r, src).Ok?
    ensures |v| >= 1 && (forall k | 0 <= k < |v| :: IsLetter(v[k])) && r == v + tail
    ensures |Upper(v)| >= 1 && forall k | 0 <= k < |Upper(v)| :: IsUpperAscii(Upper(v)[k])
    ensures ParseVerb(r, src) == ParseParams(tail, src, Upper(v), [])
  {
    var e := RunEnd(r, 0, IsLetter);
    RunEndSpec(r, 0, IsLetter);
    v, tail := r[..e], r[e..];
    assert r == v + tail;
  }

  /** The spelling an accepted line uses. */
  lemma ParseSpelling(line: string) returns (sp: Spelling)
    requires Parse(line).Ok?
    ensures Fits(Parse(line).value, sp) && line == Spelled(Parse(line).value, sp)
  {
    var cmd := Parse(line).value;
    var t, nl := NewlineSpelling(line);
    var src, r := SourceSpelling(t);
    var v, tail := VerbSpelling(r, src);
    var ps, gaps, gap := ParamsSpelling(tail, src, Upper(v), [], cmd);
    assert [] + ps == ps;
    assert ParamList(cmd) == ps;
    sp := Spelling(v, gaps, gap, nl);
    Regroup(SourcePrefix(src), v, SpacedParams(ps, gaps), SpacedContent(cmd.content, gap));
  }

  lemma Slices(r: string, j: nat, k: nat)
    requires j <= k <= |r|
    ensures r == r[..j] + r[j..k] + r[k..]
  {
  }

  lemma Regroup3(a: string, b: string, c: string)
    ensures a + b + c == a + (b + c)
  {
  }

  lemma Regroup(a: string, b: string, c: string, d: string)
    ensures a + b + c + d == a + (b + (c + d))
  {
  }

  // ---------------------------------------------------------------------
  // The scanner decides the grammar
  // ---------------------------------------------------------------------

  /** `Parse` returns a command exactly when the line spells that command. */
  lemma ParseMatches(line: string, cmd: Command)
    ensures Parse(line) == Ok(cmd) <==> Matches(line, cmd)
  {
    if Parse(line) == Ok(cmd) {
      var sp := ParseSpelling(line);
    }
    if Matches(line, cmd) {
      var sp :| Fits(cmd, sp) && line == Spelled(cmd, sp);
      SpelledParses(cmd, sp);
    }
  }

  /** A line is rejected exactly when it spells no command at all. */
  lemma ParseAcceptsGrammar(line: string)
    ensures Parse(line).Ok? <==> exists cmd :: Matches(line, cmd)
  {
    if Parse(line).Ok? {
      ParseMatches(line, Parse(line).value);
    }
    if exists cmd :: Matches(line, cmd) {
      var cmd :| Matches(line, cmd);
      ParseMatches(line, cmd);
    }
  }

  /** A lower-case verb, two spaces and a final "\n" are all accepted. */
  lemma LooseSpelling()
    ensures Parse("nick  bob\n") == Ok(Command(None, "NICK", Some(["bob"]), None))
  {
    var cmd := Command(None, "NICK", Some(["bob"]), None);
    var sp := Spelling("nick", [2], 1, true);
    assert Upper("nick") == "NICK";
    assert Spelled(cmd, sp) == "nick  bob\n";
    SpelledParses(cmd, sp);
  }
}
