/** The mount value string: printed by the journal, parsed by the agent. */
module MountValue {
  import opened ConfigTypes
  import opened Text

  datatype MountSpec = MountSpec(fsType: string, source: string, options: string)

  /** The journal's rendering, `fstype:source (options)`. */
  function Format(m: MountSpec): string {
    m.fsType + ":" + m.source + " (" + m.options + ")"
  }

  /** `trim_end_matches(')')`. */
  function StripParens(s: string): string {
    if s != "" && s[|s| - 1] == ')' then StripParens(s[..|s| - 1]) else s
  }

  function SplitColon(main: string, options: string): MountSpec {
    match Find(main, ':')
    case Some(colon) => MountSpec(Trim(main[..colon]), Trim(main[colon + 1..]), options)
    case None => MountSpec(main, "", options)
  }

  /** `parse_mount_value`. */
  function Parse(value: string): MountSpec {
    match Find(value, '(')
    case Some(paren) => SplitColon(Trim(value[..paren]), Trim(StripParens(value[paren + 1..])))
    case None => SplitColon(Trim(value), "")
  }

  /** The specs that survive the way from the journal to the agent. */
  predicate Faithful(m: MountSpec) {
    && Trimmed(m.fsType) && ':' !in m.fsType && '(' !in m.fsType
    && Trimmed(m.source) && '(' !in m.source
    && Trimmed(m.options) && (m.options == "" || m.options[|m.options| - 1] != ')')
  }

  lemma {:induction false} StripParensIs(s: string)
    ensures |StripParens(s)| <= |s| && StripParens(s) == s[..|StripParens(s)|]
    ensures StripParens(s) != "" ==> StripParens(s)[|StripParens(s)| - 1] != ')'
    ensures s != "" && s[|s| - 1] == ')' ==> |StripParens(s)| < |s|
    ensures forall i :: |StripParens(s)| <= i < |s| ==> s[i] == ')'
  {
    if s != "" && s[|s| - 1] == ')' {
      StripParensIs(s[..|s| - 1]);
    }
  }

  /** A value without options is split at its first colon, and is all file system type without one. */
  lemma WithoutOptions(f: string, s: string)
    requires '(' !in f && '(' !in s && ':' !in f
    ensures Parse(f) == MountSpec(Trim(f), "", "")
    ensures Parse(f + ":" + s) == MountSpec(Trim(f), Trim(s), "")
  {
    TrimIs(f);
    TrimAround(f, ':', s);
    TrimAfterStart(f);
    TrimAfterEnd(s);
    ColonSplits(TrimStart(f), TrimEnd(s), f);
  }

  lemma ColonSplits(a: string, b: string, f: string)
    requires ':' !in f && a == TrimStart(f)
    ensures SplitColon(a + ":" + b, "") == MountSpec(Trim(a), Trim(b), "")
  {
    TrimStartIs(f);
    var main := a + ":" + b;
    assert main[..|a|] == a && main[|a| + 1..] == b;
    FindAt(main, ':', |a|);
  }

  /** What follows the first opening parenthesis, less the closing ones at its end, are the options. */
  lemma WithOptions(head: string, tail: string)
    requires '(' !in head
    ensures Parse(head + "(" + tail) == Parse(head).(options := Trim(StripParens(tail)))
  {
    CutAtParen(head, tail);
    OptionsApart(Trim(head), Trim(StripParens(tail)));
  }

  lemma OptionsApart(main: string, options: string)
    ensures SplitColon(main, options) == SplitColon(main, "").(options := options)
  {
  }

  /** Whatever is parsed, its parts are trimmed and free of what separates them. */
  lemma ParseShape(value: string)
    ensures var m := Parse(value);
            && Trimmed(m.fsType) && ':' !in m.fsType && '(' !in m.fsType
            && Trimmed(m.source) && '(' !in m.source && Trimmed(m.options)
  {
    match Find(value, '(')
    case Some(paren) => PartsShape(value[..paren], StripParens(value[paren + 1..]));
    case None => PartsShape(value, "");
  }

  lemma PartsShape(main: string, options: string)
    requires '(' !in main
    ensures var m := SplitColon(Trim(main), Trim(options));
            && Trimmed(m.fsType) && ':' !in m.fsType && '(' !in m.fsType
            && Trimmed(m.source) && '(' !in m.source && Trimmed(m.options)
  {
    TrimIs(main);
    TrimIs(options);
    SplitColonShape(Trim(main), Trim(options));
  }

  lemma SplitColonShape(main: string, options: string)
    requires '(' !in main && Trimmed(main)
    ensures var m := SplitColon(main, options);
            && m.options == options
            && Trimmed(m.fsType) && ':' !in m.fsType && '(' !in m.fsType
            && Trimmed(m.source) && '(' !in m.source
  {
    match Find(main, ':')
    case Some(colon) =>
      TrimIs(main[..colon]);
      TrimIs(main[colon + 1..]);
    case None =>
  }

  /** The head of a printed spec, with the space before the parenthesis. */
  lemma HeadParses(f: string, s: string, options: string)
    requires Trimmed(f) && ':' !in f && Trimmed(s)
    ensures SplitColon(Trim(f + ":" + s + " "), options) == MountSpec(f, s, options)
  {
    var head := f + ":" + s;
    assert Trim(head + " ") == Trim(head) by {
      TrimTrailingSpace(head, ' ');
    }
    assert Trimmed(head) by {
      assert head[0] == (f + ":")[0];
      assert head[|head| - 1] == (":" + s)[|s|];
    }
    TrimIs(head);
    assert head[..|f|] == f && head[|f| + 1..] == s;
    FindAt(head, ':', |f|);
    TrimIs(f);
    TrimIs(s);
  }

  lemma OptionsParse(o: string)
    requires Trimmed(o) && (o == "" || o[|o| - 1] != ')')
    ensures Trim(StripParens(o + ")")) == o
  {
    assert (o + ")")[..|o|] == o;
    assert StripParens(o + ")") == StripParens(o) == o;
    TrimIs(o);
  }

  lemma CutAtParen(head: string, tail: string)
    requires '(' !in head
    ensures Parse(head + "(" + tail) == SplitColon(Trim(head), Trim(StripParens(tail)))
  {
    var value := head + "(" + tail;
    assert value[..|head|] == head && value[|head| + 1..] == tail;
    FindAt(value, '(', |head|);
  }

  lemma FormatIs(m: MountSpec)
    ensures Format(m) == (m.fsType + ":" + m.source + " ") + "(" + (m.options + ")")
  {
  }

  lemma FaithfulRoundTrip(m: MountSpec)
    requires Faithful(m)
    ensures Parse(Format(m)) == m
  {
    FormatIs(m);
    CutAtParen(m.fsType + ":" + m.source + " ", m.options + ")");
    HeadParses(m.fsType, m.source, m.options);
    OptionsParse(m.options);
  }

  /** When `(` occurs only in the options, the options come back shortened if they end in `)`. */
  lemma ParenLost(m: MountSpec)
    requires '(' !in m.fsType && '(' !in m.source && m.options != "" && m.options[|m.options| - 1] == ')'
    ensures |Parse(Format(m)).options| < |m.options|
  {
    FormatIs(m);
    CutAtParen(m.fsType + ":" + m.source + " ", m.options + ")");
    assert (m.options + ")")[..|m.options|] == m.options;
    StripParensIs(m.options);
    assert StripParens(m.options + ")") == StripParens(m.options);
    TrimIs(StripParens(m.options));
  }

  /** The agent reads back what the journal printed if and only if the spec is faithful. */
  lemma RoundTripIff(m: MountSpec)
    ensures Parse(Format(m)) == m <==> Faithful(m)
    ensures Format(m) == m.fsType + ":" + m.source + " (" + m.options + ")"
  {
    if Faithful(m) {
      FaithfulRoundTrip(m);
    } else if Parse(Format(m)) == m {
      ParseShape(Format(m));
      ParenLost(m);
    }
  }
}
