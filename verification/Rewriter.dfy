/** Rewriting the credentials of a sentinel.conf in place: one pass over its lines that
  * replaces the password directives and keeps everything else. */
module Rewriter {
  import opened Wrappers
  import opened Text
  import opened ConfText

  /** How a line is treated. */
  datatype Kind =
    | Requirepass
    | SentinelPass
    | AuthPass(name: string)
    | DefaultUser(rules: seq<string>)
    | Other

  function KindOfWords(f: seq<string>): Kind {
    if |f| >= 1 && SameIgnoringCase(f[0], "requirepass") then Requirepass
    else if |f| >= 2 && SameIgnoringCase(f[0], "sentinel") && SameIgnoringCase(f[1], "sentinel-pass") then SentinelPass
    else if |f| >= 3 && SameIgnoringCase(f[0], "sentinel") && SameIgnoringCase(f[1], "auth-pass") then AuthPass(f[2])
    else if |f| >= 2 && SameIgnoringCase(f[0], "user") && f[1] == "default" then DefaultUser(f[2..])
    else Other
  }

  function KindOf(line: string): Kind {
    KindOfWords(Words(line))
  }

  /** Neither a password rule nor one that resets passwords. */
  predicate KeepsRule(rule: string) {
    && (rule != "" ==> rule[0] != '#' && rule[0] != '>' && rule[0] != '<' && rule[0] != '!')
    && rule != "nopass"
    && rule != "resetpass"
  }

  function Kept(rules: seq<string>): seq<string> {
    if rules == [] then [] else (if KeepsRule(rules[0]) then [rules[0]] else []) + Kept(rules[1..])
  }

  function JoinSpaces(words: seq<string>): string {
    if words == [] then "" else if |words| == 1 then words[0] else words[0] + " " + JoinSpaces(words[1..])
  }

  // ----- the lines written ---------------------------------------------------------------

  /** The new password: in clear for the directives, as a digest for the ACL rule. */
  datatype Secret = Secret(password: string, digest: string)

  /** What the callers guarantee: passwords with a line break are refused before any rewrite,
    * and a digest is hexadecimal. */
  predicate Valid(s: Secret) {
    '\n' !in s.password && NoSpace(s.digest)
  }

  function SentinelPassLine(s: Secret): string {
    SentinelDirective("sentinel-pass", Quote(s.password))
  }

  function UserLine(permissions: seq<string>, s: Secret): string {
    Directive("user", Directive("default", Directive(JoinSpaces(permissions), Directive("resetpass", "#" + s.digest))))
  }

  function Written(kind: Kind, line: string, s: Secret): string {
    match kind
    case Requirepass => Directive("requirepass", Quote(s.password))
    case SentinelPass => SentinelPassLine(s)
    case AuthPass(name) => SentinelDirective("auth-pass", Directive(name, Quote(s.password)))
    case DefaultUser(rules) => UserLine(Kept(rules), s)
    case Other => line
  }

  function RewriteLine(line: string, s: Secret): string {
    Written(KindOf(line), line, s)
  }

  function RewriteAll(lines: seq<string>, s: Secret): (r: seq<string>)
    ensures |r| == |lines|
  {
    seq(|lines|, i requires 0 <= i < |lines| => RewriteLine(lines[i], s))
  }

  ghost predicate Has(lines: seq<string>, kind: Kind) {
    exists i :: 0 <= i < |lines| && KindOf(lines[i]) == kind
  }

  /** Position of the first line that sets the password, or the length. */
  function FirstRequirepass(lines: seq<string>): (n: nat)
    ensures n <= |lines|
  {
    if lines == [] then 0 else if "requirepass " <= lines[0] then 0 else 1 + FirstRequirepass(lines[1..])
  }

  lemma {:induction false} FirstRequirepassIsFirst(lines: seq<string>)
    ensures var n := FirstRequirepass(lines);
            && (n < |lines| ==> "requirepass " <= lines[n])
            && forall i | 0 <= i < n :: !("requirepass " <= lines[i])
  {
    if lines != [] && !("requirepass " <= lines[0]) {
      FirstRequirepassIsFirst(lines[1..]);
      assert forall i | 0 < i < |lines| :: lines[i] == lines[1..][i - 1];
    }
  }

  /** Just after that line. */
  function Place(lines: seq<string>): (at: nat)
    ensures at <= |lines|
  {
    var first := FirstRequirepass(lines);
    if first < |lines| then first + 1 else |lines|
  }

  function InsertAt(lines: seq<string>, at: nat, line: string): seq<string>
    requires at <= |lines|
  {
    lines[..at] + [line] + lines[at..]
  }

  function Insert(lines: seq<string>, line: string): seq<string> {
    InsertAt(lines, Place(lines), line)
  }

  ghost function RewriteLines(lines: seq<string>, s: Secret): seq<string> {
    if Has(lines, Requirepass) && !Has(lines, SentinelPass) then Insert(RewriteAll(lines, s), SentinelPassLine(s))
    else RewriteAll(lines, s)
  }

  ghost function Rewrite(original: string, s: Secret): string {
    Render(RewriteLines(Lines(original), s))
  }

  /** The line goes in just after the first one that sets the password, or at the end. */
  method InsertAfterRequirepass(lines: seq<string>, line: string) returns (out: seq<string>)
    ensures out == Insert(lines, line)
    ensures exists at :: 0 <= at <= |lines| && out == lines[..at] + [line] + lines[at..]
                         && if exists i :: 0 <= i < |lines| && "requirepass " <= lines[i] then
                              at > 0 && "requirepass " <= lines[at - 1]
                              && forall i | 0 <= i < at - 1 :: !("requirepass " <= lines[i])
                            else at == |lines|
  {
    var first := 0;
    while first < |lines| && !("requirepass " <= lines[first])
      invariant 0 <= first <= |lines|
      invariant FirstRequirepass(lines) == first + FirstRequirepass(lines[first..])
    {
      first := first + 1;
    }
    var at := if first < |lines| then first + 1 else |lines|;
    out := lines[..at] + [line] + lines[at..];
    FirstRequirepassIsFirst(lines);
  }

  /** The pass over the lines: each one rewritten, and whether the conf requires auth and
    * already names the outbound password. */
  method RewritePass(input: seq<string>, s: Secret)
    returns (lines: seq<string>, requiresAuth: bool, hasSentinelPass: bool)
    ensures lines == RewriteAll(input, s)
    ensures requiresAuth <==> Has(input, Requirepass)
    ensures hasSentinelPass <==> Has(input, SentinelPass)
  {
    lines, requiresAuth, hasSentinelPass := [], false, false;
    for i := 0 to |input|
      invariant |lines| == i && forall k | 0 <= k < i :: lines[k] == RewriteLine(input[k], s)
      invariant requiresAuth <==> Has(input[..i], Requirepass)
      invariant hasSentinelPass <==> Has(input[..i], SentinelPass)
    {
      var kind := KindOf(input[i]);
      HasSnoc(input, i, Requirepass);
      HasSnoc(input, i, SentinelPass);
      if kind == Requirepass {
        requiresAuth := true;
      } else if kind == SentinelPass {
        hasSentinelPass := true;
      }
      lines := lines + [Written(kind, input[i], s)];
    }
    assert input[..|input|] == input;
  }

  lemma HasSnoc(lines: seq<string>, n: nat, kind: Kind)
    requires n < |lines|
    ensures Has(lines[..n + 1], kind) <==> Has(lines[..n], kind) || KindOf(lines[n]) == kind
  {
    assert lines[..n + 1] == lines[..n] + [lines[n]];
    if i :| 0 <= i < n && KindOf(lines[..n][i]) == kind {
      assert lines[..n + 1][i] == lines[..n][i];
    }
    assert lines[..n + 1][n] == lines[n];
  }

  method RewriteSentinel(original: string, s: Secret) returns (out: string)
    ensures out == Rewrite(original, s)
  {
    var lines, requiresAuth, hasSentinelPass := RewritePass(Lines(original), s);
    if requiresAuth && !hasSentinelPass {
      lines := InsertAfterRequirepass(lines, SentinelPassLine(s));
    }
    out := Render(lines);
  }

  // ----- what a rewritten line is ------------------------------------------------------------

  lemma RequirepassIsRequirepass(value: string)
    ensures KindOf(Directive("requirepass", value)) == Requirepass
  {
    WordsOfDirective("requirepass", value);
  }

  lemma SentinelPassIsSentinelPass(value: string)
    ensures KindOf(SentinelDirective("sentinel-pass", value)) == SentinelPass
  {
    WordsOfOption("sentinel-pass", value);
  }

  lemma AuthPassIsAuthPass(name: string, value: string)
    requires name != "" && NoSpace(name)
    ensures KindOf(SentinelDirective("auth-pass", Directive(name, value))) == AuthPass(name)
  {
    WordsOfDirective(name, value);
    WordsOfOption("auth-pass", Directive(name, value));
  }

  lemma UserWords(value: string)
    ensures Words(Directive("user", Directive("default", value))) == ["user", "default"] + Words(value)
  {
    WordsOfDirective("default", value);
    WordsOfDirective("user", Directive("default", value));
    assert ["user"] + (["default"] + Words(value)) == ["user", "default"] + Words(value);
  }

  lemma UserIsUser(value: string)
    ensures KindOf(Directive("user", Directive("default", value))) == DefaultUser(Words(value))
  {
    UserWords(value);
  }

  ghost predicate AllWords(words: seq<string>) {
    forall i | 0 <= i < |words| :: words[i] != "" && NoSpace(words[i])
  }

  lemma {:induction false} WordsOfJoin(words: seq<string>)
    requires AllWords(words)
    ensures Words(JoinSpaces(words)) == words
  {
    if |words| == 1 {
      WordsOfLast(words[0]);
    } else if |words| > 1 {
      WordsOfJoin(words[1..]);
      WordsOfDirective(words[0], JoinSpaces(words[1..]));
      assert JoinSpaces(words) == Directive(words[0], JoinSpaces(words[1..]));
    }
  }

  lemma WordsAreWords(s: string)
    ensures AllWords(Words(s))
  {
    WordsHaveNoSpace(s);
    forall i | 0 <= i < |Words(s)|
      ensures Words(s)[i] != "" && NoSpace(Words(s)[i])
    {
      assert Words(s)[i] in Words(s);
    }
  }

  lemma {:induction false} KeptAreWords(rules: seq<string>)
    requires AllWords(rules)
    ensures AllWords(Kept(rules))
  {
    if rules != [] {
      KeptAreWords(rules[1..]);
    }
  }

  lemma {:induction false} KeptTwice(rules: seq<string>, more: seq<string>)
    ensures Kept(Kept(rules) + more) == Kept(rules) + Kept(more)
  {
    if rules == [] {
      assert [] + more == more;
    } else {
      KeptTwice(rules[1..], more);
      if KeepsRule(rules[0]) {
        assert Kept(rules) + more == [rules[0]] + (Kept(rules[1..]) + more);
        assert ([rules[0]] + (Kept(rules[1..]) + more))[1..] == Kept(rules[1..]) + more;
      } else {
        assert Kept(rules) == Kept(rules[1..]);
      }
    }
  }

  /** A rule that sets, removes or waives a password, by its value or its digest. */
  predicate IsPasswordRule(rule: string) {
    rule == "nopass" || rule == "resetpass" || (rule != "" && rule[0] in {'>', '<', '#', '!'})
  }

  /** `kept` are the rules at these places, in order, and every other rule is a password rule. */
  ghost predicate AreTheOthers(kept: seq<string>, rules: seq<string>, at: seq<nat>) {
    && |at| == |kept|
    && (forall k | 0 <= k < |at| :: at[k] < |rules| && kept[k] == rules[at[k]] && !IsPasswordRule(kept[k]))
    && (forall k, l | 0 <= k < l < |at| :: at[k] < at[l])
    && (forall i | 0 <= i < |rules| && i !in at :: IsPasswordRule(rules[i]))
  }

  lemma {:induction false} KeptSnoc(rules: seq<string>, rule: string)
    ensures Kept(rules + [rule]) == Kept(rules) + if KeepsRule(rule) then [rule] else []
  {
    if rules == [] {
      assert [] + [rule] == [rule];
    } else {
      assert (rules + [rule])[1..] == rules[1..] + [rule];
      KeptSnoc(rules[1..], rule);
    }
  }

  /** The permissions a rewrite keeps are all the rules but the password rules. */
  lemma {:induction false} KeptAreTheOthers(rules: seq<string>) returns (at: seq<nat>)
    ensures AreTheOthers(Kept(rules), rules, at)
  {
    at := [];
    if rules != [] {
      var rest, rule := rules[..|rules| - 1], rules[|rules| - 1];
      at := KeptAreTheOthers(rest);
      KeptSnoc(rest, rule);
      assert rest + [rule] == rules;
      if KeepsRule(rule) {
        var next := at + [|rest|];
        assert next[|at|] == |rest|;
        assert forall i | 0 <= i < |rules| && i !in next :: i in at ==> i in next;
        at := next;
      }
    }
  }

  lemma PasswordRulesAreDropped(digest: string)
    ensures Kept(["resetpass", "#" + digest]) == []
  {
    var rule := "#" + digest;
    assert !KeepsRule(rule) && !KeepsRule("resetpass");
    assert ["resetpass", rule][1..] == [rule] && [rule][1..] == [];
    assert Kept([rule]) == [] + Kept([]);
  }

  lemma ResetRules(s: Secret)
    requires Valid(s)
    ensures Words(Directive("resetpass", "#" + s.digest)) == ["resetpass", "#" + s.digest]
  {
    assert NoSpace("#" + s.digest);
    WordsOfLast("#" + s.digest);
    WordsOfDirective("resetpass", "#" + s.digest);
  }

  /** The rule line of the default user reads back as the kept permissions, a reset and the
    * one new digest. */
  lemma UserLineReads(rules: seq<string>, s: Secret)
    requires AllWords(rules) && Valid(s)
    ensures KindOf(UserLine(Kept(rules), s)) == DefaultUser(Kept(rules) + ["resetpass", "#" + s.digest])
    ensures Kept(Kept(rules) + ["resetpass", "#" + s.digest]) == Kept(rules)
  {
    KeptAreWords(rules);
    WordsOfJoin(Kept(rules));
    ResetRules(s);
    WordsConcat(JoinSpaces(Kept(rules)), ' ', Directive("resetpass", "#" + s.digest));
    UserIsUser(Directive(JoinSpaces(Kept(rules)), Directive("resetpass", "#" + s.digest)));
    KeptTwice(rules, ["resetpass", "#" + s.digest]);
    PasswordRulesAreDropped(s.digest);
    assert Kept(rules) + [] == Kept(rules);
  }

  lemma KindHasWords(line: string)
    ensures var k := KindOf(line);
            (k.AuthPass? ==> k.name != "" && NoSpace(k.name)) && (k.DefaultUser? ==> AllWords(k.rules))
  {
    WordsAreWords(line);
  }

  /** A rewritten line is rewritten as its original would have been. */
  lemma LineTwice(line: string, s: Secret, t: Secret)
    requires Valid(s)
    ensures RewriteLine(RewriteLine(line, s), t) == RewriteLine(line, t)
    ensures KindOf(RewriteLine(line, s)) == Requirepass <==> KindOf(line) == Requirepass
    ensures KindOf(RewriteLine(line, s)) == SentinelPass <==> KindOf(line) == SentinelPass
    ensures KindOf(RewriteLine(line, s)) == Other <==> KindOf(line) == Other
  {
    KindHasWords(line);
    match KindOf(line)
    case Requirepass => RequirepassIsRequirepass(Quote(s.password));
    case SentinelPass => SentinelPassIsSentinelPass(Quote(s.password));
    case AuthPass(name) => AuthPassIsAuthPass(name, Quote(s.password));
    case DefaultUser(rules) => UserLineReads(rules, s);
    case Other =>
  }

  lemma StartsIffRequirepass(line: string, s: Secret)
    ensures "requirepass " <= RewriteLine(line, s) <==> KindOf(line) == Requirepass
  {
    match KindOf(line)
    case Requirepass =>
      assert RewriteLine(line, s) == "requirepass " + Quote(s.password);
    case SentinelPass =>
      assert RewriteLine(line, s)[0] == 's';
    case AuthPass(_) =>
      assert RewriteLine(line, s)[0] == 's';
    case DefaultUser(_) =>
      assert RewriteLine(line, s)[0] == 'u';
    case Other =>
      if "requirepass " <= line {
        var rest := line[12..];
        assert line == "requirepass " + rest && "requirepass " == "requirepass" + " ";
        assert line == Directive("requirepass", rest);
        RequirepassIsRequirepass(rest);
      }
  }
}
