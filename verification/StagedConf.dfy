/** redis.conf of a boot in the middle of a rotation: the same file with both passwords
  * accepted and the new one used towards the master. */
module StagedConf {
  import opened Wrappers
  import opened Text
  import opened ConfText
  import opened RewriterLaws

  /** The staged rotation as the file shows it: two digests and the new password. */
  datatype Overlap = Overlap(currentDigest: string, targetDigest: string, target: string)

  predicate Valid(o: Overlap) {
    NoSpace(o.currentDigest) && NoSpace(o.targetDigest) && '\n' !in o.target
  }

  const USER_RULE := "user default "
  const MASTERAUTH := "masterauth "
  const UNRESTRICTED := "user default on ~* &* +@all"

  predicate IsUserRule(line: string) {
    USER_RULE <= line
  }

  predicate IsMasterauth(line: string) {
    MASTERAUTH <= line
  }

  predicate IsNotMasterauth(line: string) {
    !IsMasterauth(line)
  }

  /** A line staging has no business with. */
  predicate IsPlain(line: string) {
    !IsUserRule(line) && !IsMasterauth(line)
  }

  function Passwords(o: Overlap): string {
    " " + ("#" + o.currentDigest + (" " + ("#" + o.targetDigest)))
  }

  function MasterauthLine(o: Overlap): string {
    Directive("masterauth", Quote(o.target))
  }

  function FirstUserRule(lines: seq<string>): (n: nat)
    ensures n <= |lines| && (n < |lines| ==> IsUserRule(lines[n]))
    ensures forall i | 0 <= i < n :: !IsUserRule(lines[i])
  {
    if lines == [] || IsUserRule(lines[0]) then 0 else 1 + FirstUserRule(lines[1..])
  }

  /** The first rule of the default user with the two passwords appended, or a new one. */
  function WithOverlap(lines: seq<string>, o: Overlap): seq<string> {
    var n := FirstUserRule(lines);
    if n < |lines| then lines[..n] + [lines[n] + Passwords(o)] + lines[n + 1..]
    else lines + [UNRESTRICTED + Passwords(o)]
  }

  function StagedLines(lines: seq<string>, o: Overlap): seq<string> {
    Filter(WithOverlap(lines, o), IsNotMasterauth) + [MasterauthLine(o)]
  }

  /** Without a journal, or once the node runs on the new password, the file stays as it is. */
  function Staged(config: string, journal: Option<Overlap>, active: string): string {
    if journal.None? || active == journal.value.target then config
    else Render(StagedLines(Lines(config), journal.value))
  }

  method AppendOverlap(input: seq<string>, o: Overlap) returns (lines: seq<string>)
    ensures lines == WithOverlap(input, o)
  {
    var n := 0;
    while n < |input| && !IsUserRule(input[n])
      invariant 0 <= n <= |input|
      invariant FirstUserRule(input) == n + FirstUserRule(input[n..])
    {
      n := n + 1;
    }
    if n < |input| {
      return input[..n] + [input[n] + Passwords(o)] + input[n + 1..];
    }
    lines := input + [UNRESTRICTED + Passwords(o)];
  }

  method StagedConfig(config: string, journal: Option<Overlap>, active: string) returns (out: string)
    ensures out == Staged(config, journal, active)
    ensures journal.None? || active == journal.value.target ==> out == config
    ensures journal.Some? && active != journal.value.target ==> out == Render(StagedLines(Lines(config), journal.value))
  {
    if journal.None? || active == journal.value.target {
      return config;
    }
    var lines := AppendOverlap(Lines(config), journal.value);
    lines := Retain(lines);
    var quoted := QuoteConfValue(journal.value.target);
    lines := lines + [Directive("masterauth", quoted)];
    out := Render(lines);
  }

  method Retain(lines: seq<string>) returns (kept: seq<string>)
    ensures kept == Filter(lines, IsNotMasterauth)
  {
    kept := [];
    for i := 0 to |lines|
      invariant kept == Filter(lines[..i], IsNotMasterauth)
    {
      assert lines[..i + 1][..i] == lines[..i];
      if !IsMasterauth(lines[i]) {
        kept := kept + [lines[i]];
      }
    }
    assert lines[..|lines|] == lines;
  }

  // ----- what staging keeps -----------------------------------------------------------

  lemma KindsExclude(rest: string)
    ensures IsUserRule(USER_RULE + rest) && !IsMasterauth(USER_RULE + rest)
    ensures IsMasterauth(MASTERAUTH + rest) && !IsUserRule(MASTERAUTH + rest)
  {
    assert (USER_RULE + rest)[0] == 'u' && (MASTERAUTH + rest)[0] == 'm';
  }

  lemma RuleGrows(rule: string, o: Overlap)
    requires IsUserRule(rule)
    ensures IsUserRule(rule + Passwords(o)) && !IsMasterauth(rule + Passwords(o))
  {
    var rest := rule[|USER_RULE|..];
    assert rule == USER_RULE + rest;
    KindsExclude(rest + Passwords(o));
    assert rule + Passwords(o) == USER_RULE + (rest + Passwords(o));
  }

  lemma UnrestrictedIsARule()
    ensures IsUserRule(UNRESTRICTED) && !IsMasterauth(UNRESTRICTED)
  {
    KindsExclude("on ~* &* +@all");
    assert UNRESTRICTED == USER_RULE + "on ~* &* +@all";
  }

  lemma MasterauthLineIs(o: Overlap)
    ensures IsMasterauth(MasterauthLine(o)) && !IsUserRule(MasterauthLine(o))
  {
    KindsExclude(Quote(o.target));
    assert MASTERAUTH == "masterauth" + " ";
    assert MasterauthLine(o) == MASTERAUTH + Quote(o.target);
  }

  /** The last line, kept or dropped. */
  lemma FilterStep(lines: seq<string>, p: string -> bool)
    requires lines != []
    ensures var rest, last := lines[..|lines| - 1], lines[|lines| - 1];
            Filter(lines, p) == if p(last) then Filter(rest, p) + [last] else Filter(rest, p)
  {
  }

  lemma {:induction false} FilterTwice(lines: seq<string>, p: string -> bool, q: string -> bool)
    requires forall line :: p(line) ==> q(line)
    ensures Filter(Filter(lines, q), p) == Filter(lines, p)
  {
    if lines != [] {
      var rest, last := lines[..|lines| - 1], lines[|lines| - 1];
      FilterTwice(rest, p, q);
      FilterStep(lines, q);
      FilterStep(lines, p);
      if q(last) {
        FilterLast(Filter(rest, q), last, p);
      }
    }
  }

  lemma FilterLast(lines: seq<string>, last: string, p: string -> bool)
    ensures Filter(lines + [last], p) == Filter(lines, p) + (if p(last) then [last] else [])
  {
    assert (lines + [last])[..|lines|] == lines;
  }

  lemma {:induction false} FilterNone(lines: seq<string>, p: string -> bool, q: string -> bool)
    requires forall line :: !(p(line) && q(line))
    ensures Filter(Filter(lines, q), p) == []
  {
    if lines != [] {
      var rest, last := lines[..|lines| - 1], lines[|lines| - 1];
      FilterNone(rest, p, q);
      FilterStep(lines, q);
      if q(last) {
        FilterLast(Filter(rest, q), last, p);
      }
    }
  }

  /** Replacing one line that `p` drops by another it drops changes nothing `p` keeps. */
  lemma FilterReplaced(a: seq<string>, was: string, now: string, b: seq<string>, p: string -> bool)
    requires !p(was) && !p(now)
    ensures Filter(a + [was] + b, p) == Filter(a + [now] + b, p)
  {
    FilterAround(a, was, b, p);
    FilterAround(a, now, b, p);
  }

  lemma RuleAround(lines: seq<string>, n: nat) returns (a: seq<string>, b: seq<string>)
    requires n < |lines|
    ensures a == lines[..n] && b == lines[n + 1..] && lines == a + [lines[n]] + b
  {
    a, b := lines[..n], lines[n + 1..];
  }

  lemma OverlapKeepsPlain(lines: seq<string>, o: Overlap)
    ensures Filter(WithOverlap(lines, o), IsPlain) == Filter(lines, IsPlain)
  {
    var n := FirstUserRule(lines);
    if n < |lines| {
      var a, b := RuleAround(lines, n);
      RuleGrows(lines[n], o);
      FilterReplaced(a, lines[n], lines[n] + Passwords(o), b, IsPlain);
    } else {
      UnrestrictedIsARule();
      RuleGrows(UNRESTRICTED, o);
      FilterLast(lines, UNRESTRICTED + Passwords(o), IsPlain);
    }
  }

  /** Every line that is neither the default user's rule nor masterauth survives, in order;
    * one masterauth is left, it is the last line, and it carries the new password. */
  lemma StagingKeepsTheRest(lines: seq<string>, o: Overlap)
    ensures Filter(StagedLines(lines, o), IsPlain) == Filter(lines, IsPlain)
    ensures Filter(StagedLines(lines, o), IsMasterauth) == [MasterauthLine(o)]
  {
    var kept := Filter(WithOverlap(lines, o), IsNotMasterauth);
    MasterauthLineIs(o);
    OverlapKeepsPlain(lines, o);
    FilterTwice(WithOverlap(lines, o), IsPlain, IsNotMasterauth);
    FilterLast(kept, MasterauthLine(o), IsPlain);
    FilterNone(WithOverlap(lines, o), IsMasterauth, IsNotMasterauth);
    FilterLast(kept, MasterauthLine(o), IsMasterauth);
  }

  lemma {:induction false} FilterKeepsRules(lines: seq<string>)
    ensures Filter(Filter(lines, IsNotMasterauth), IsUserRule) == Filter(lines, IsUserRule)
  {
    if lines != [] {
      var rest, last := lines[..|lines| - 1], lines[|lines| - 1];
      FilterKeepsRules(rest);
      FilterStep(lines, IsNotMasterauth);
      FilterStep(lines, IsUserRule);
      if IsMasterauth(last) {
        RuleIsNoMasterauth(last);
      } else {
        FilterLast(Filter(rest, IsNotMasterauth), last, IsUserRule);
      }
    }
  }

  lemma RuleIsNoMasterauth(line: string)
    requires IsMasterauth(line)
    ensures !IsUserRule(line)
  {
    var rest := line[|MASTERAUTH|..];
    assert line == MASTERAUTH + rest;
    KindsExclude(rest);
  }

  lemma {:induction false} FilterOfNone(lines: seq<string>, p: string -> bool)
    requires forall i | 0 <= i < |lines| :: !p(lines[i])
    ensures Filter(lines, p) == []
  {
    if lines != [] {
      FilterOfNone(lines[..|lines| - 1], p);
    }
  }

  lemma RulesSplit(a: seq<string>, rule: string, b: seq<string>)
    requires IsUserRule(rule) && forall i | 0 <= i < |a| :: !IsUserRule(a[i])
    ensures Filter(a + [rule] + b, IsUserRule) == [rule] + Filter(b, IsUserRule)
  {
    FilterConcat(a + [rule], b, IsUserRule);
    FilterLast(a, rule, IsUserRule);
    FilterOfNone(a, IsUserRule);
  }

  /** The default user's rules are what they were, the first one widened by the two passwords
    * and by nothing else; a file without one gets the generated unrestricted rule. */
  lemma OnlyPasswordsAreAdded(lines: seq<string>, o: Overlap)
    ensures var before, after := Filter(lines, IsUserRule), Filter(StagedLines(lines, o), IsUserRule);
            if before == [] then after == [UNRESTRICTED + Passwords(o)]
            else after == [before[0] + Passwords(o)] + before[1..]
  {
    var n := FirstUserRule(lines);
    var kept := Filter(WithOverlap(lines, o), IsNotMasterauth);
    MasterauthLineIs(o);
    FilterLast(kept, MasterauthLine(o), IsUserRule);
    FilterKeepsRules(WithOverlap(lines, o));
    if n < |lines| {
      var a, b := RuleAround(lines, n);
      RuleGrows(lines[n], o);
      RulesSplit(a, lines[n], b);
      RulesSplit(a, lines[n] + Passwords(o), b);
    } else {
      UnrestrictedIsARule();
      RuleGrows(UNRESTRICTED, o);
      FilterOfNone(lines, IsUserRule);
      FilterLast(lines, UNRESTRICTED + Passwords(o), IsUserRule);
    }
  }

  lemma TwoWords(a: string, b: string)
    requires a != "" && NoSpace(a) && b != "" && NoSpace(b)
    ensures Words(a + (" " + b)) == [a, b]
  {
    WordsOfLast(b);
    WordsCons(a, " " + b);
    WordsSkip(' ', b);
  }

  /** The widened rule reads as the rule it was, then the two digests. */
  lemma BothDigestsAreRead(rule: string, o: Overlap)
    requires Valid(o)
    ensures Words(rule + Passwords(o)) == Words(rule) + ["#" + o.currentDigest, "#" + o.targetDigest]
  {
    var both := "#" + o.currentDigest + (" " + ("#" + o.targetDigest));
    TwoWords("#" + o.currentDigest, "#" + o.targetDigest);
    WordsConcat(rule, ' ', both);
    assert rule + Passwords(o) == rule + [' '] + both;
  }

  // ----- the pin ----------------------------------------------------------------------------

  lemma KeyOf(key: string, rest: string)
    requires key != "" && NoSpace(key) && !SameIgnoringCase(key, "requirepass")
    ensures RequirepassIn(key + " " + rest) == None
  {
    var line := key + " " + rest;
    WordsCons(key, " " + rest);
    assert line == key + (" " + rest);
    TrimStartKeepsWords(line);
    TrimEndKeepsWords(TrimStart(line));
    KeyIsFirstWord(line, key);
  }

  lemma KeyIsFirstWord(line: string, key: string)
    requires Words(Trim(line)) != [] && Words(Trim(line))[0] == key && !SameIgnoringCase(key, "requirepass")
    ensures RequirepassIn(line) == None
  {
    var text := Trim(line);
    if WordLength(text) > 0 {
      FirstFieldWords(text);
    } else {
      assert FirstField(text).0 == "";
    }
  }

  lemma UserSetsNoPin(line: string)
    requires IsUserRule(line)
    ensures RequirepassIn(line) == None
  {
    var rest := line[5..];
    assert NoSpace("user") && |"user"| != |"requirepass"|;
    assert line == "user" + " " + rest;
    KeyOf("user", rest);
  }

  lemma MasterauthSetsNoPin(line: string)
    requires IsMasterauth(line)
    ensures RequirepassIn(line) == None
  {
    var rest := line[11..];
    assert NoSpace("masterauth") && |"masterauth"| != |"requirepass"|;
    assert line == "masterauth" + " " + rest;
    KeyOf("masterauth", rest);
  }

  lemma {:induction false} PinOfConcat(a: seq<string>, b: seq<string>)
    ensures ParseRequirepass(a + b) == if ParseRequirepass(a).Some? then ParseRequirepass(a) else ParseRequirepass(b)
  {
    if a == [] {
      assert a + b == b;
    } else {
      assert (a + b)[0] == a[0] && (a + b)[1..] == a[1..] + b;
      PinOfConcat(a[1..], b);
    }
  }

  lemma PinOfOne(line: string)
    ensures ParseRequirepass([line]) == RequirepassIn(line)
  {
    assert [line][1..] == [];
  }

  lemma PinOfLast(rest: seq<string>, last: string)
    ensures ParseRequirepass(rest + [last])
            == if ParseRequirepass(rest).Some? then ParseRequirepass(rest) else RequirepassIn(last)
  {
    PinOfConcat(rest, [last]);
    PinOfOne(last);
  }

  lemma SamePinMore(kept: seq<string>, rest: seq<string>, last: string)
    requires ParseRequirepass(kept) == ParseRequirepass(rest)
    ensures ParseRequirepass(kept + [last]) == ParseRequirepass(rest + [last])
    ensures RequirepassIn(last) == None ==> ParseRequirepass(kept) == ParseRequirepass(rest + [last])
  {
    PinOfLast(kept, last);
    PinOfLast(rest, last);
  }

  lemma {:induction false} FilterKeepsPin(lines: seq<string>)
    ensures ParseRequirepass(Filter(lines, IsNotMasterauth)) == ParseRequirepass(lines)
  {
    if lines != [] {
      var rest, last := lines[..|lines| - 1], lines[|lines| - 1];
      FilterKeepsPin(rest);
      FilterStep(lines, IsNotMasterauth);
      assert lines == rest + [last];
      SamePinMore(Filter(rest, IsNotMasterauth), rest, last);
      if IsMasterauth(last) {
        MasterauthSetsNoPin(last);
      }
    }
  }

  lemma OverlapKeepsPin(lines: seq<string>, o: Overlap)
    ensures ParseRequirepass(WithOverlap(lines, o)) == ParseRequirepass(lines)
  {
    var n := FirstUserRule(lines);
    if n < |lines| {
      var a, b := RuleAround(lines, n);
      RuleGrows(lines[n], o);
      PinAround(a, lines[n], b);
      PinAround(a, lines[n] + Passwords(o), b);
    } else {
      UnrestrictedIsARule();
      RuleGrows(UNRESTRICTED, o);
      UserSetsNoPin(UNRESTRICTED + Passwords(o));
      PinOfConcat(lines, [UNRESTRICTED + Passwords(o)]);
      PinOfOne(UNRESTRICTED + Passwords(o));
    }
  }

  lemma PinAround(a: seq<string>, rule: string, b: seq<string>)
    requires IsUserRule(rule)
    ensures ParseRequirepass(a + [rule] + b) == ParseRequirepass(a + b)
  {
    UserSetsNoPin(rule);
    PinOfOne(rule);
    PinOfConcat(a + [rule], b);
    PinOfConcat(a, [rule]);
    PinOfConcat(a, b);
  }

  /** Staging never moves the pin: the next boot reads the same persisted password from the
    * staged file as from the generated one. */
  lemma StagingKeepsThePin(lines: seq<string>, o: Overlap)
    ensures ParseRequirepass(StagedLines(lines, o)) == ParseRequirepass(lines)
  {
    OverlapKeepsPin(lines, o);
    FilterKeepsPin(WithOverlap(lines, o));
    MasterauthLineIs(o);
    MasterauthSetsNoPin(MasterauthLine(o));
    PinOfOne(MasterauthLine(o));
    PinOfConcat(Filter(WithOverlap(lines, o), IsNotMasterauth), [MasterauthLine(o)]);
  }
}
