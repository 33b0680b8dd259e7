/** The algebra of the rewrite: what a later rewrite finds, what survives, and what every
  * credential line carries afterwards. */
module RewriterLaws {
  import opened Wrappers
  import opened Text
  import opened ConfText
  import opened Rewriter

  // ----- twice is once -------------------------------------------------------------------

  lemma {:induction false} FirstIsFirstKind(lines: seq<string>, s: Secret, t: Secret)
    ensures FirstRequirepass(RewriteAll(lines, s)) == FirstRequirepass(RewriteAll(lines, t))
  {
    var a, b := RewriteAll(lines, s), RewriteAll(lines, t);
    if lines != [] {
      StartsIffRequirepass(lines[0], s);
      StartsIffRequirepass(lines[0], t);
      assert a[1..] == RewriteAll(lines[1..], s) && b[1..] == RewriteAll(lines[1..], t);
      FirstIsFirstKind(lines[1..], s, t);
    }
  }

  lemma AllTwice(lines: seq<string>, s: Secret, t: Secret)
    requires Valid(s)
    ensures RewriteAll(RewriteAll(lines, s), t) == RewriteAll(lines, t)
    ensures Has(RewriteAll(lines, s), Requirepass) <==> Has(lines, Requirepass)
    ensures Has(RewriteAll(lines, s), SentinelPass) <==> Has(lines, SentinelPass)
  {
    var once := RewriteAll(lines, s);
    forall i | 0 <= i < |lines|
      ensures RewriteLine(once[i], t) == RewriteLine(lines[i], t)
      ensures KindOf(once[i]) == Requirepass <==> KindOf(lines[i]) == Requirepass
      ensures KindOf(once[i]) == SentinelPass <==> KindOf(lines[i]) == SentinelPass
    {
      LineTwice(lines[i], s, t);
    }
    SameKinds(once, lines, Requirepass);
    SameKinds(once, lines, SentinelPass);
  }

  lemma SameKinds(a: seq<string>, b: seq<string>, kind: Kind)
    requires |a| == |b| && forall i | 0 <= i < |a| :: KindOf(a[i]) == kind <==> KindOf(b[i]) == kind
    ensures Has(a, kind) <==> Has(b, kind)
  {
    if i :| 0 <= i < |a| && KindOf(a[i]) == kind {
      assert KindOf(b[i]) == kind;
    }
    if i :| 0 <= i < |b| && KindOf(b[i]) == kind {
      assert KindOf(a[i]) == kind;
    }
  }

  function Map(lines: seq<string>, f: string -> string): seq<string> {
    seq(|lines|, i requires 0 <= i < |lines| => f(lines[i]))
  }

  lemma MapInsert(lines: seq<string>, at: nat, line: string, f: string -> string)
    requires at <= |lines|
    ensures Map(InsertAt(lines, at, line), f) == InsertAt(Map(lines, f), at, f(line))
  {
  }

  lemma RewriteIsMap(lines: seq<string>, t: Secret)
    ensures RewriteAll(lines, t) == Map(lines, line => RewriteLine(line, t))
  {
  }

  /** Where the outbound password goes does not depend on the password. */
  lemma InsertedTwice(lines: seq<string>, s: Secret, t: Secret)
    requires Valid(s)
    ensures RewriteAll(Insert(RewriteAll(lines, s), SentinelPassLine(s)), t)
            == Insert(RewriteAll(lines, t), SentinelPassLine(t))
  {
    var once, at := RewriteAll(lines, s), Place(RewriteAll(lines, s));
    FirstIsFirstKind(lines, s, t);
    AllTwice(lines, s, t);
    SentinelPassIsSentinelPass(Quote(s.password));
    RewriteIsMap(once, t);
    RewriteIsMap(InsertAt(once, at, SentinelPassLine(s)), t);
    MapInsert(once, at, SentinelPassLine(s), line => RewriteLine(line, t));
  }

  ghost predicate Any(lines: seq<string>, p: string -> bool) {
    exists i :: 0 <= i < |lines| && p(lines[i])
  }

  lemma InsertedAny(lines: seq<string>, at: nat, line: string, p: string -> bool)
    requires at <= |lines|
    ensures Any(InsertAt(lines, at, line), p) <==> Any(lines, p) || p(line)
  {
    var out := InsertAt(lines, at, line);
    assert out[at] == line;
    if i :| 0 <= i < |lines| && p(lines[i]) {
      assert out[if i < at then i else i + 1] == lines[i];
    }
    if k :| 0 <= k < |out| && p(out[k]) {
      assert k == at || out[k] == lines[if k < at then k else k - 1];
    }
  }

  lemma HasIsAny(lines: seq<string>, kind: Kind)
    ensures Has(lines, kind) <==> Any(lines, line => KindOf(line) == kind)
  {
    var p := line => KindOf(line) == kind;
    if i :| 0 <= i < |lines| && KindOf(lines[i]) == kind {
      assert p(lines[i]);
    }
    if i :| 0 <= i < |lines| && p(lines[i]) {
      assert KindOf(lines[i]) == kind;
    }
  }

  lemma InsertedKind(lines: seq<string>, line: string, kind: Kind)
    ensures Has(Insert(lines, line), kind) <==> Has(lines, kind) || KindOf(line) == kind
  {
    HasIsAny(lines, kind);
    HasIsAny(Insert(lines, line), kind);
    InsertedAny(lines, Place(lines), line, x => KindOf(x) == kind);
  }

  /** After a rewrite, a line already names the outbound password whenever one is required. */
  lemma NothingLeftToInsert(lines: seq<string>, s: Secret)
    requires Valid(s)
    ensures var once := RewriteLines(lines, s);
            && (Has(once, Requirepass) <==> Has(lines, Requirepass))
            && (Has(once, SentinelPass) <==> Has(lines, SentinelPass) || Has(lines, Requirepass))
  {
    var all := RewriteAll(lines, s);
    AllTwice(lines, s, s);
    if Has(lines, Requirepass) && !Has(lines, SentinelPass) {
      var line := SentinelPassLine(s);
      SentinelPassIsSentinelPass(Quote(s.password));
      InsertedKind(all, line, SentinelPass);
      InsertedKind(all, line, Requirepass);
    }
  }

  /** A second rewrite of the lines is the second rewrite of the original ones. */
  lemma LinesTwice(lines: seq<string>, s: Secret, t: Secret)
    requires Valid(s)
    ensures RewriteLines(RewriteLines(lines, s), t) == RewriteLines(lines, t)
  {
    NothingLeftToInsert(lines, s);
    if Has(lines, Requirepass) && !Has(lines, SentinelPass) {
      InsertedTwice(lines, s, t);
    } else {
      AllTwice(lines, s, t);
    }
  }

  // ----- carriage returns: exactly when the file obeys the law ---------------------------------

  function Stripped(lines: seq<string>): seq<string> {
    seq(|lines|, i requires 0 <= i < |lines| => StripCarriageReturn(lines[i]))
  }

  ghost predicate OneLineEach(lines: seq<string>) {
    forall i | 0 <= i < |lines| :: '\n' !in lines[i]
  }

  lemma {:induction false} LinesOfAnyRender(lines: seq<string>)
    requires lines != [] && OneLineEach(lines)
    ensures Lines(Render(lines)) == Stripped(lines)
  {
    var line, rest := lines[0], lines[1..];
    if rest == [] {
      LinesCons(line, "");
      assert Render(lines) == line + "\n" + "";
    } else {
      LinesOfAnyRender(rest);
      LinesCons(line, Render(rest));
      assert Stripped(lines) == [StripCarriageReturn(line)] + Stripped(rest);
    }
  }

  predicate LosesReturn(line: string) {
    KindOf(line) == Other && line != "" && line[|line| - 1] == '\r'
  }

  /** A kept line that still ends in a carriage return: the file had two of them, or one
    * and no newline after it. */
  ghost predicate KeepsCarriageReturn(lines: seq<string>) {
    Any(lines, LosesReturn)
  }

  lemma WrittenIsStable(line: string, s: Secret)
    requires Valid(s) && '\n' !in line
    ensures '\n' !in RewriteLine(line, s)
    ensures KindOf(line) != Other ==> Stable(RewriteLine(line, s))
  {
    KindHasWords(line);
    QuoteIsStable(s.password);
    match KindOf(line)
    case Requirepass => DirectiveIsStable("requirepass", Quote(s.password));
    case SentinelPass =>
      DirectiveIsStable("sentinel-pass", Quote(s.password));
      DirectiveIsStable("sentinel", Directive("sentinel-pass", Quote(s.password)));
    case AuthPass(name) =>
      DirectiveIsStable(name, Quote(s.password));
      DirectiveIsStable("auth-pass", Directive(name, Quote(s.password)));
      DirectiveIsStable("sentinel", Directive("auth-pass", Directive(name, Quote(s.password))));
    case DefaultUser(rules) => UserLineIsStable(rules, s);
    case Other =>
  }

  lemma {:induction false} JoinIsOneLine(words: seq<string>)
    requires AllWords(words)
    ensures '\n' !in JoinSpaces(words)
  {
    if |words| > 1 {
      JoinIsOneLine(words[1..]);
    }
  }

  lemma UserLineIsStable(rules: seq<string>, s: Secret)
    requires AllWords(rules) && Valid(s)
    ensures Stable(UserLine(Kept(rules), s))
  {
    KeptAreWords(rules);
    JoinIsOneLine(Kept(rules));
    var digest := "#" + s.digest;
    assert NoSpace(digest) && Stable(digest);
    DirectiveIsStable("resetpass", digest);
    DirectiveIsStable(JoinSpaces(Kept(rules)), Directive("resetpass", digest));
    DirectiveIsStable("default", Directive(JoinSpaces(Kept(rules)), Directive("resetpass", digest)));
    DirectiveIsStable("user", Directive("default", Directive(JoinSpaces(Kept(rules)), Directive("resetpass", digest))));
  }

  lemma StripKeepsWords(line: string)
    ensures Words(StripCarriageReturn(line)) == Words(line)
  {
    if line != "" && line[|line| - 1] == '\r' {
      var body := line[..|line| - 1];
      WordsConcat(body, '\r', "");
      assert body + ['\r'] + "" == line;
      assert Words(body) + Words("") == Words(body);
    }
  }

  /** Reading a line back costs a kept one its carriage return and any other nothing. */
  lemma LineThroughFile(line: string, t: Secret)
    ensures KindOf(StripCarriageReturn(line)) == KindOf(line)
    ensures RewriteLine(StripCarriageReturn(line), t)
            == if KindOf(line) == Other then StripCarriageReturn(line) else RewriteLine(line, t)
  {
    StripKeepsWords(line);
  }

  ghost predicate Shortened(a: seq<string>, b: seq<string>) {
    |a| == |b| && forall i | 0 <= i < |a| :: |b[i]| <= |a[i]|
  }

  lemma {:induction false} RenderShortens(a: seq<string>, b: seq<string>)
    requires Shortened(a, b)
    ensures |Render(b)| <= |Render(a)|
    ensures (exists i :: 0 <= i < |a| && |b[i]| < |a[i]|) ==> |Render(b)| < |Render(a)|
  {
    if |a| > 1 {
      RenderShortens(a[1..], b[1..]);
      if i :| 0 <= i < |a| && |b[i]| < |a[i]| && i > 0 {
        assert |b[1..][i - 1]| < |a[1..][i - 1]|;
      }
    }
  }

  lemma SameOrShorter(a: seq<string>, b: seq<string>)
    requires |a| == |b| && forall i | 0 <= i < |a| :: b[i] == a[i] || |b[i]| < |a[i]|
    ensures Render(a) == Render(b) <==> a == b
  {
    if a != b {
      RenderShortens(a, b);
      assert exists i :: 0 <= i < |a| && b[i] != a[i];
    }
  }

  lemma ShorterWhere(lines: seq<string>, direct: seq<string>, reread: seq<string>, p: string -> bool)
    requires |lines| == |direct| == |reread|
    requires forall i | 0 <= i < |lines| :: if p(lines[i]) then |reread[i]| < |direct[i]| else reread[i] == direct[i]
    ensures Render(direct) == Render(reread) <==> !Any(lines, p)
  {
    SameOrShorter(direct, reread);
    if i :| 0 <= i < |lines| && p(lines[i]) {
      assert |reread[i]| < |direct[i]|;
    } else {
      assert direct == reread;
    }
  }

  /** Rewriting what was read back, against rewriting the lines themselves. */
  lemma RewriteThroughFile(lines: seq<string>, t: Secret)
    ensures Render(RewriteAll(lines, t)) == Render(RewriteAll(Stripped(lines), t)) <==> !KeepsCarriageReturn(lines)
  {
    var direct, reread := RewriteAll(lines, t), RewriteAll(Stripped(lines), t);
    forall i | 0 <= i < |lines|
      ensures if LosesReturn(lines[i]) then |reread[i]| < |direct[i]| else reread[i] == direct[i]
    {
      LineThroughFile(lines[i], t);
    }
    ShorterWhere(lines, direct, reread, LosesReturn);
  }

  lemma StrippedKeepsKinds(lines: seq<string>, kind: Kind)
    ensures Has(Stripped(lines), kind) <==> Has(lines, kind)
  {
    forall i | 0 <= i < |lines|
      ensures KindOf(Stripped(lines)[i]) == KindOf(lines[i])
    {
      StripKeepsWords(lines[i]);
    }
    SameKinds(Stripped(lines), lines, kind);
  }

  lemma WrittenIsOneLineEach(lines: seq<string>, s: Secret)
    requires Valid(s) && OneLineEach(lines)
    ensures OneLineEach(RewriteLines(lines, s))
  {
    forall i | 0 <= i < |lines|
      ensures '\n' !in RewriteAll(lines, s)[i]
    {
      WrittenIsStable(lines[i], s);
    }
    QuoteIsStable(s.password);
    DirectiveIsStable("sentinel-pass", Quote(s.password));
    DirectiveIsStable("sentinel", Directive("sentinel-pass", Quote(s.password)));
  }

  lemma AllKeepsCarriageReturns(lines: seq<string>, s: Secret)
    requires Valid(s)
    ensures KeepsCarriageReturn(RewriteAll(lines, s)) <==> KeepsCarriageReturn(lines)
  {
    var all := RewriteAll(lines, s);
    forall i | 0 <= i < |lines|
      ensures LosesReturn(all[i]) <==> LosesReturn(lines[i])
    {
      LineTwice(lines[i], s, s);
    }
    if i :| 0 <= i < |lines| && LosesReturn(lines[i]) {
      assert LosesReturn(all[i]);
    }
    if i :| 0 <= i < |all| && LosesReturn(all[i]) {
      assert LosesReturn(lines[i]);
    }
  }

  lemma RewriteKeepsCarriageReturns(lines: seq<string>, s: Secret)
    requires Valid(s)
    ensures KeepsCarriageReturn(RewriteLines(lines, s)) <==> KeepsCarriageReturn(lines)
  {
    AllKeepsCarriageReturns(lines, s);
    SentinelPassIsSentinelPass(Quote(s.password));
    InsertedAny(RewriteAll(lines, s), Place(RewriteAll(lines, s)), SentinelPassLine(s), LosesReturn);
  }

  /** The lines of a rewritten file, read back and rewritten again. */
  lemma SecondPass(lines: seq<string>, s: Secret, t: Secret)
    requires Valid(s) && OneLineEach(lines)
    ensures Render(RewriteLines(Stripped(RewriteLines(lines, s)), t)) == Render(RewriteLines(lines, t))
            <==> !KeepsCarriageReturn(lines)
  {
    var once := RewriteLines(lines, s);
    NothingLeftToInsert(lines, s);
    LinesTwice(lines, s, t);
    StrippedKeepsKinds(once, Requirepass);
    StrippedKeepsKinds(once, SentinelPass);
    RewriteThroughFile(once, t);
    RewriteKeepsCarriageReturns(lines, s);
  }

  lemma LinesAreOneLineEach(text: string)
    ensures OneLineEach(Lines(text))
  {
    LinesHaveNoNewline(text);
    forall i | 0 <= i < |Lines(text)|
      ensures '\n' !in Lines(text)[i]
    {
      assert Lines(text)[i] in Lines(text);
    }
  }

  lemma EmptyFile(s: Secret)
    ensures RewriteLines([], s) == [] && RewriteLines([""], s) == [""] && Lines("\n") == [""]
    ensures Render([]) == "\n" && Render([""]) == "\n"
  {
    LinesCons("", "");
    assert "" + "\n" + "" == "\n";
    assert Words("") == [];
    assert RewriteAll([""], s) == [""];
  }

  /** A rewrite leaves nothing of the previous one: on every file, rewriting with one
    * password and then another is rewriting with the other, exactly when no kept line of
    * the file still ends in a carriage return. */
  lemma SecondRewriteWins(original: string, s: Secret, t: Secret)
    requires Valid(s) && Valid(t)
    ensures Rewrite(Rewrite(original, s), t) == Rewrite(original, t) <==> !KeepsCarriageReturn(Lines(original))
  {
    var lines := Lines(original);
    var once := RewriteLines(lines, s);
    LinesAreOneLineEach(original);
    if lines == [] {
      EmptyFile(s);
      EmptyFile(t);
    } else {
      WrittenIsOneLineEach(lines, s);
      LinesOfAnyRender(once);
      SecondPass(lines, s, t);
    }
  }

  lemma WordThenRest(word: string, rest: string)
    requires word != "" && NoSpace(word) && (rest != "" ==> IsSpace(rest[0]))
    ensures Words(word + rest) == [word] + (if rest == "" then [] else Words(rest[1..]))
  {
    WordsCons(word, rest);
    if rest != "" {
      WordsSkip(rest[0], rest[1..]);
      assert rest == [rest[0]] + rest[1..];
    }
  }

  /** The law fails: of two carriage returns, each rewrite takes one. */
  lemma DoubledReturnIsTakenTwice(s: Secret, t: Secret)
    requires Valid(s) && Valid(t)
    ensures Rewrite(Rewrite("x\r\r\n", s), t) != Rewrite("x\r\r\n", t)
  {
    var line := "x\r";
    LinesCons("x\r\r", "");
    assert "x\r\r" + "\n" + "" == "x\r\r\n" && StripCarriageReturn("x\r\r") == line;
    assert Lines("x\r\r\n") == [line];
    WordThenRest("x", "\r");
    assert "x" + "\r" == line && Words("") == [];
    assert Words(line) == ["x"] && LosesReturn(line);
    assert Any([line], LosesReturn) by {
      assert LosesReturn([line][0]);
    }
    SecondRewriteWins("x\r\r\n", s, t);
  }

  // ----- what survives, and what every credential line carries --------------------------------

  function Filter(lines: seq<string>, p: string -> bool): seq<string> {
    if lines == [] then []
    else Filter(lines[..|lines| - 1], p) + (if p(lines[|lines| - 1]) then [lines[|lines| - 1]] else [])
  }

  /** The lines that are no credentials, in order. */
  function Others(lines: seq<string>): seq<string> {
    Filter(lines, IsOther)
  }

  predicate IsOther(line: string) {
    KindOf(line) == Other
  }

  lemma {:induction false} FilterConcat(a: seq<string>, b: seq<string>, p: string -> bool)
    ensures Filter(a + b, p) == Filter(a, p) + Filter(b, p)
  {
    if b == [] {
      assert a + b == a;
    } else {
      assert (a + b)[..|a + b| - 1] == a + b[..|b| - 1];
      FilterConcat(a, b[..|b| - 1], p);
    }
  }

  lemma FilterSkips(a: seq<string>, line: string, p: string -> bool)
    requires !p(line)
    ensures Filter(a + [line], p) == Filter(a, p)
  {
    assert (a + [line])[..|a|] == a;
  }

  lemma FilterAround(a: seq<string>, line: string, b: seq<string>, p: string -> bool)
    requires !p(line)
    ensures Filter(a + [line] + b, p) == Filter(a + b, p)
  {
    FilterConcat(a + [line], b, p);
    FilterSkips(a, line, p);
    FilterConcat(a, b, p);
  }

  lemma SplitAt(lines: seq<string>, at: nat) returns (a: seq<string>, b: seq<string>)
    requires at <= |lines|
    ensures a == lines[..at] && b == lines[at..] && lines == a + b
  {
    a, b := lines[..at], lines[at..];
  }

  lemma FilterInsert(lines: seq<string>, at: nat, line: string, p: string -> bool)
    requires at <= |lines| && !p(line)
    ensures Filter(InsertAt(lines, at, line), p) == Filter(lines, p)
  {
    var a, b := SplitAt(lines, at);
    FilterAround(a, line, b, p);
  }

  lemma {:induction false} RewriteAllKeepsOthers(lines: seq<string>, s: Secret)
    requires Valid(s)
    ensures Others(RewriteAll(lines, s)) == Others(lines)
  {
    if lines != [] {
      var n := |lines| - 1;
      RewriteAllKeepsOthers(lines[..n], s);
      LineTwice(lines[n], s, s);
      assert RewriteAll(lines, s)[..n] == RewriteAll(lines[..n], s);
    }
  }

  /** Everything that is no credential survives, unchanged and in order: topology, epochs,
    * identities, restrictions of other users. */
  lemma OthersSurvive(lines: seq<string>, s: Secret)
    requires Valid(s)
    ensures Others(RewriteLines(lines, s)) == Others(lines)
  {
    RewriteAllKeepsOthers(lines, s);
    SentinelPassIsSentinelPass(Quote(s.password));
    FilterInsert(RewriteAll(lines, s), Place(RewriteAll(lines, s)), SentinelPassLine(s), IsOther);
  }

  /** A credential line as the program's own readers understand it carries this secret. */
  predicate Carries(line: string, s: Secret) {
    match KindOf(line)
    case Requirepass => RequirepassIn(line) == Some(s.password)
    case SentinelPass => line == SentinelPassLine(s)
    case AuthPass(name) => AuthPassIn(line, name) == Some(s.password)
    case DefaultUser(rules) => rules == Kept(rules) + ["resetpass", "#" + s.digest]
    case Other => true
  }

  lemma AuthPassReads(name: string, password: string)
    requires name != "" && NoSpace(name)
    ensures AuthPassIn(SentinelDirective("auth-pass", Directive(name, Quote(password))), name) == Some(password)
  {
    var q := Quote(password);
    assert q[0] == '"' && q[|q| - 1] == '"' && Visible(q);
    SentinelIsAWord();
    NoSpaceIsVisible(name);
    FirstFieldOfDirective(name, q);
    FirstFieldOfDirective("auth-pass", Directive(name, q));
    FirstFieldOfDirective("sentinel", Directive("auth-pass", Directive(name, q)));
    TrimIsIdentity(q);
    UnquoteQuote(password);
  }

  lemma RewrittenCarries(line: string, s: Secret)
    requires Valid(s)
    ensures Carries(RewriteLine(line, s), s)
  {
    KindHasWords(line);
    match KindOf(line)
    case Requirepass =>
      RequirepassIsRequirepass(Quote(s.password));
      RequirepassLineReads(s.password);
    case SentinelPass =>
      SentinelPassIsSentinelPass(Quote(s.password));
    case AuthPass(name) =>
      AuthPassIsAuthPass(name, Quote(s.password));
      AuthPassReads(name, s.password);
    case DefaultUser(rules) =>
      UserLineReads(rules, s);
    case Other =>
  }

  /** Every credential line of the result carries the new secret and no other; a conf that
    * requires auth names the outbound password, and an open conf stays open. */
  lemma EveryCredentialIsNew(lines: seq<string>, s: Secret)
    requires Valid(s)
    ensures forall i | 0 <= i < |RewriteLines(lines, s)| :: Carries(RewriteLines(lines, s)[i], s)
    ensures Has(RewriteLines(lines, s), Requirepass) <==> Has(lines, Requirepass)
    ensures Has(lines, Requirepass) ==> Has(RewriteLines(lines, s), SentinelPass)
  {
    NothingLeftToInsert(lines, s);
    forall i | 0 <= i < |lines|
      ensures Carries(RewriteAll(lines, s)[i], s)
    {
      RewrittenCarries(lines[i], s);
    }
    SentinelPassIsSentinelPass(Quote(s.password));
    assert Carries(SentinelPassLine(s), s);
  }

  // ----- the reconcile loop reads it back ---------------------------------------------------------

  lemma FirstWord(text: string) returns (word: string, rest: string)
    requires WordLength(text) > 0
    ensures word == text[..WordLength(text)] && rest == text[WordLength(text)..] && text == word + rest
    ensures word != "" && NoSpace(word) && (rest != "" ==> IsSpace(rest[0]))
    ensures rest != "" ==> rest[1..] == text[WordLength(text) + 1..]
  {
    word, rest := text[..WordLength(text)], text[WordLength(text)..];
  }

  /** The field-by-field split and the word split agree on the first word. */
  lemma FirstFieldWords(text: string)
    requires WordLength(text) > 0
    ensures var n := WordLength(text); Words(text) == [text[..n]] + (if n < |text| then Words(text[n + 1..]) else [])
  {
    var word, rest := FirstWord(text);
    WordThenRest(word, rest);
  }

  lemma {:induction false} TrimStartKeepsWords(text: string)
    ensures Words(TrimStart(text)) == Words(text)
  {
    if text != "" && IsSpace(text[0]) {
      TrimStartKeepsWords(text[1..]);
    }
  }

  lemma {:induction false} TrimEndKeepsWords(text: string)
    ensures Words(TrimEnd(text)) == Words(text)
    decreases |text|
  {
    if text != "" && IsSpace(text[|text| - 1]) {
      var body := text[..|text| - 1];
      TrimEndKeepsWords(body);
      WordsConcat(body, text[|text| - 1], "");
      assert text == body + [text[|text| - 1]] + "";
      assert Words(body) + [] == Words(body);
    }
  }

  lemma FieldThenWords(text: string, field: string, rest: string)
    requires FirstField(text) == (field, Some(rest)) && field != ""
    ensures Words(text) == [field] + Words(rest)
  {
    FirstFieldWords(text);
  }

  lemma FieldIsFirst(text: string, field: string)
    requires FirstField(text).0 == field && field != ""
    ensures Words(text) != [] && Words(text)[0] == field
  {
    FirstFieldWords(text);
  }

  /** Three non-empty fields, each ended by one whitespace character, are the first words. */
  lemma ThreeFieldWords(text: string, keyword: string, rest: string, option: string, tail: string, name: string)
    requires FirstField(text) == (keyword, Some(rest)) && FirstField(rest) == (option, Some(tail))
    requires FirstField(tail).0 == name && keyword != "" && option != "" && name != ""
    ensures var f := Words(text); |f| >= 3 && f[0] == keyword && f[1] == option && f[2] == name
  {
    FieldThenWords(text, keyword, rest);
    FieldThenWords(rest, option, tail);
    FieldIsFirst(tail, name);
  }

  lemma AuthPassWords(f: seq<string>, name: string)
    requires |f| >= 3 && SameIgnoringCase(f[0], "sentinel") && SameIgnoringCase(f[1], "auth-pass") && f[2] == name
    ensures KindOfWords(f) == AuthPass(name)
  {
    assert |f[0]| == 8 && |f[1]| == 9 && |"requirepass"| == 11 && |"sentinel-pass"| == 13;
  }

  /** Only an `auth-pass` line of this master set, as the rewrite sees it, answers. */
  lemma AnswersOnlyForItsMaster(line: string, name: string)
    requires name != "" && AuthPassIn(line, name).Some?
    ensures KindOf(line) == AuthPass(name)
  {
    TrimStartKeepsWords(line);
    TrimEndKeepsWords(TrimStart(line));
    var (keyword, rest) := FirstField(Trim(line));
    var (option, tail) := FirstField(rest.value);
    ThreeFieldWords(Trim(line), keyword, rest.value, option, tail.value, name);
    AuthPassWords(Words(Trim(line)), name);
  }

  lemma {:induction false} FirstAnswer(lines: seq<string>, name: string, password: string)
    requires forall i | 0 <= i < |lines| ::
               AuthPassIn(lines[i], name).None? || AuthPassIn(lines[i], name) == Some(password)
    ensures ConfAuthPass(lines, name)
            == if exists i :: 0 <= i < |lines| && AuthPassIn(lines[i], name).Some? then Some(password) else None
  {
    if lines != [] {
      FirstAnswer(lines[1..], name, password);
      if AuthPassIn(lines[0], name).None? {
        if i :| 0 <= i < |lines| && AuthPassIn(lines[i], name).Some? {
          assert AuthPassIn(lines[1..][i - 1], name).Some?;
        }
        if i :| 0 <= i < |lines[1..]| && AuthPassIn(lines[1..][i], name).Some? {
          assert AuthPassIn(lines[i + 1], name).Some?;
        }
      }
    }
  }

  lemma AuthPassLinesStay(lines: seq<string>, s: Secret, name: string)
    requires Valid(s) && name != ""
    ensures Has(RewriteLines(lines, s), AuthPass(name)) <==> Has(lines, AuthPass(name))
  {
    var all := RewriteAll(lines, s);
    forall i | 0 <= i < |lines|
      ensures KindOf(all[i]) == AuthPass(name) <==> KindOf(lines[i]) == AuthPass(name)
    {
      KindStays(lines[i], s);
    }
    SameKinds(all, lines, AuthPass(name));
    SentinelPassIsSentinelPass(Quote(s.password));
    InsertedKind(all, SentinelPassLine(s), AuthPass(name));
  }

  lemma KindStays(line: string, s: Secret)
    requires Valid(s)
    ensures !KindOf(line).DefaultUser? ==> KindOf(RewriteLine(line, s)) == KindOf(line)
    ensures KindOf(line).DefaultUser? ==> KindOf(RewriteLine(line, s)).DefaultUser?
  {
    KindHasWords(line);
    match KindOf(line)
    case Requirepass => RequirepassIsRequirepass(Quote(s.password));
    case SentinelPass => SentinelPassIsSentinelPass(Quote(s.password));
    case AuthPass(name) => AuthPassIsAuthPass(name, Quote(s.password));
    case DefaultUser(rules) => UserLineReads(rules, s);
    case Other =>
  }

  /** A line of the rewritten file, as read back. */
  lemma ReadLineAnswers(line: string, s: Secret, name: string)
    requires Valid(s) && name != "" && Carries(line, s) && (KindOf(line) == AuthPass(name) ==> Stable(line))
    ensures AuthPassIn(StripCarriageReturn(line), name)
            == if KindOf(line) == AuthPass(name) then Some(s.password) else None
  {
    StripKeepsWords(line);
    if AuthPassIn(StripCarriageReturn(line), name).Some? {
      AnswersOnlyForItsMaster(StripCarriageReturn(line), name);
    }
  }

  lemma CredentialsAreStable(lines: seq<string>, s: Secret)
    requires Valid(s) && OneLineEach(lines)
    ensures forall i | 0 <= i < |RewriteLines(lines, s)| ::
              KindOf(RewriteLines(lines, s)[i]) != Other ==> Stable(RewriteLines(lines, s)[i])
  {
    forall i | 0 <= i < |lines|
      ensures KindOf(RewriteAll(lines, s)[i]) != Other ==> Stable(RewriteAll(lines, s)[i])
    {
      LineTwice(lines[i], s, s);
      WrittenIsStable(lines[i], s);
    }
    QuoteIsStable(s.password);
    DirectiveIsStable("sentinel-pass", Quote(s.password));
    DirectiveIsStable("sentinel", Directive("sentinel-pass", Quote(s.password)));
  }

  lemma LinesAnswer(lines: seq<string>, s: Secret, name: string)
    requires Valid(s) && OneLineEach(lines) && name != "" && NoSpace(name)
    ensures ConfAuthPass(Stripped(RewriteLines(lines, s)), name)
            == if Has(lines, AuthPass(name)) then Some(s.password) else None
  {
    var out := RewriteLines(lines, s);
    EveryCredentialIsNew(lines, s);
    CredentialsAreStable(lines, s);
    AuthPassLinesStay(lines, s, name);
    forall i | 0 <= i < |out|
      ensures AuthPassIn(Stripped(out)[i], name) == if KindOf(out[i]) == AuthPass(name) then Some(s.password) else None
    {
      ReadLineAnswers(out[i], s, name);
    }
    FirstAnswer(Stripped(out), name, s.password);
  }

  /** After a rewrite the reconcile loop reads from the file the new password for a master
    * set exactly when the file had an `auth-pass` line for it, and nothing otherwise. */
  lemma ReconcileReadsNewPassword(original: string, s: Secret, name: string)
    requires Valid(s) && name != "" && NoSpace(name)
    ensures ConfAuthPass(Lines(Rewrite(original, s)), name)
            == if Has(Lines(original), AuthPass(name)) then Some(s.password) else None
  {
    var lines := Lines(original);
    LinesAreOneLineEach(original);
    if lines == [] {
      EmptyFile(s);
      assert FirstField(Trim("")) == ("", None);
      assert ConfAuthPass([""][1..], name) == None;
    } else {
      WrittenIsOneLineEach(lines, s);
      LinesOfAnyRender(RewriteLines(lines, s));
      LinesAnswer(lines, s, name);
    }
  }

  // ----- spelling -----------------------------------------------------------------------------

  lemma SameFolds(a: string, b: string, c: string)
    requires SameIgnoringCase(a, b)
    ensures SameIgnoringCase(a, c) <==> SameIgnoringCase(b, c)
  {
  }

  /** The keywords of a line are recognised in any case, as Redis reads them. */
  lemma KeywordsIgnoreCase(f: seq<string>, g: seq<string>)
    requires |f| == |g| && forall i | 0 <= i < |f| :: if i < 2 && !(i == 1 && SameIgnoringCase(f[0], "user")) then
                                                        SameIgnoringCase(f[i], g[i])
                                                      else f[i] == g[i]
    ensures KindOfWords(f) == KindOfWords(g)
  {
    if |f| >= 1 {
      SameFolds(f[0], g[0], "requirepass");
      SameFolds(f[0], g[0], "sentinel");
      SameFolds(f[0], g[0], "user");
    }
    if |f| >= 2 && !SameIgnoringCase(f[0], "user") {
      SameFolds(f[1], g[1], "sentinel-pass");
      SameFolds(f[1], g[1], "auth-pass");
    }
  }
}
