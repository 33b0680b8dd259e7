/** The dialect of redis.conf and sentinel.conf: quoting a value, and the readers that
  * get a password or a master address back out of a file. */
module ConfText {
  import opened Wrappers
  import opened Text
  import opened Decimal

  // ----- quoting -------------------------------------------------------------------

  function Escape(s: string): string {
    if s == "" then ""
    else (if s[0] == '\\' || s[0] == '"' then ['\\', s[0]] else [s[0]]) + Escape(s[1..])
  }

  function Unescape(s: string): string
    decreases |s|
  {
    if s == "" then ""
    else if s[0] == '\\' then (if |s| > 1 then [s[1]] + Unescape(s[2..]) else "")
    else [s[0]] + Unescape(s[1..])
  }

  function Quote(s: string): string {
    "\"" + Escape(s) + "\""
  }

  predicate IsQuoted(s: string) {
    |s| >= 2 && s[0] == '"' && s[|s| - 1] == '"'
  }

  function Unquote(s: string): string {
    if IsQuoted(s) then Unescape(s[1..|s| - 1]) else s
  }

  lemma {:induction false} EscapeSnoc(s: string, c: char)
    ensures Escape(s + [c]) == Escape(s) + (if c == '\\' || c == '"' then ['\\', c] else [c])
  {
    if s == "" {
      assert s + [c] == [c];
    } else {
      assert (s + [c])[1..] == s[1..] + [c];
      EscapeSnoc(s[1..], c);
    }
  }

  method QuoteConfValue(value: string) returns (out: string)
    ensures out == Quote(value)
  {
    out := "\"";
    for i := 0 to |value|
      invariant out == "\"" + Escape(value[..i])
    {
      assert value[..i + 1] == value[..i] + [value[i]];
      EscapeSnoc(value[..i], value[i]);
      if value[i] == '\\' {
        out := out + "\\\\";
      } else if value[i] == '"' {
        out := out + "\\\"";
      } else {
        out := out + [value[i]];
      }
    }
    assert value[..|value|] == value;
    out := out + "\"";
  }

  method UnquoteConfValue(value: string) returns (out: string)
    ensures out == Unquote(value)
  {
    if !IsQuoted(value) {
      return value;
    }
    var inner := value[1..|value| - 1];
    out := "";
    var i := 0;
    while i < |inner|
      invariant 0 <= i <= |inner|
      invariant out + Unescape(inner[i..]) == Unescape(inner)
    {
      var c := inner[i];
      i := i + 1;
      if c == '\\' {
        if i < |inner| {
          out := out + [inner[i]];
          i := i + 1;
        }
      } else {
        out := out + [c];
      }
    }
  }

  lemma {:induction false} UnescapeEscape(s: string)
    ensures Unescape(Escape(s)) == s
  {
    if s != "" {
      UnescapeEscape(s[1..]);
      var tail := Escape(s[1..]);
      if s[0] == '\\' || s[0] == '"' {
        assert Escape(s) == ['\\', s[0]] + tail;
        assert Escape(s)[2..] == tail;
      } else {
        assert Escape(s) == [s[0]] + tail;
        assert Escape(s)[1..] == tail;
      }
    }
  }

  /** Every value comes back from its quoted form. */
  lemma UnquoteQuote(s: string)
    ensures Unquote(Quote(s)) == s
  {
    assert Quote(s)[1..|Quote(s)| - 1] == Escape(s);
    UnescapeEscape(s);
  }

  /** Index of the first quote no backslash escapes, or the length. */
  function ClosingQuote(s: string): nat
    decreases |s|
  {
    if s == "" || s[0] == '"' then 0
    else if s[0] == '\\' then (if |s| > 1 then 2 + ClosingQuote(s[2..]) else 1)
    else 1 + ClosingQuote(s[1..])
  }

  /** No value ends its own quotes: the first unescaped quote is the one that closes it,
    * whatever follows on the line. */
  lemma {:induction false} ValueStaysInside(s: string, rest: string)
    ensures ClosingQuote(Escape(s) + "\"" + rest) == |Escape(s)|
  {
    var text := Escape(s) + "\"" + rest;
    if s != "" {
      ValueStaysInside(s[1..], rest);
      var tail := Escape(s[1..]) + "\"" + rest;
      if s[0] == '\\' || s[0] == '"' {
        assert text == ['\\', s[0]] + tail;
        assert text[2..] == tail;
      } else {
        assert text == [s[0]] + tail;
        assert text[1..] == tail;
      }
    }
  }

  lemma {:induction false} EscapeKeepsLines(s: string)
    requires '\n' !in s
    ensures '\n' !in Escape(s)
  {
    if s != "" {
      EscapeKeepsLines(s[1..]);
    }
  }

  lemma QuoteIsStable(s: string)
    requires '\n' !in s
    ensures '\n' !in Quote(s) && Quote(s)[0] == '"' && Quote(s)[|Quote(s)| - 1] == '"' && |Quote(s)| >= 2
  {
    EscapeKeepsLines(s);
  }

  // ----- directives ------------------------------------------------------------------

  function Directive(key: string, value: string): string {
    key + " " + value
  }

  lemma WordsOfDirective(key: string, value: string)
    requires key != "" && NoSpace(key)
    ensures Words(Directive(key, value)) == [key] + Words(value)
  {
    WordsCons(key, " " + value);
    WordsSkip(' ', value);
    assert Directive(key, value) == key + (" " + value);
  }

  lemma DirectiveIsStable(key: string, value: string)
    requires '\n' !in key && Stable(value)
    ensures Stable(Directive(key, value))
  {
  }

  function SentinelDirective(option: string, value: string): string {
    Directive("sentinel", Directive(option, value))
  }

  /** Text that starts and ends in visible characters. */
  predicate Visible(s: string) {
    s != "" && !IsSpace(s[0]) && !IsSpace(s[|s| - 1])
  }

  lemma FirstFieldOfDirective(key: string, value: string)
    requires key != "" && NoSpace(key) && Visible(value)
    ensures Trim(Directive(key, value)) == Directive(key, value)
    ensures FirstField(Directive(key, value)) == (key, Some(value))
  {
    assert !IsSpace(Directive(key, value)[0]) by {
      assert key[0] in key;
    }
    TrimIsIdentity(Directive(key, value));
    FirstFieldOf(key, ' ', value);
  }

  lemma NoSpaceIsVisible(s: string)
    requires s != "" && NoSpace(s)
    ensures Visible(s)
  {
    assert s[0] in s && s[|s| - 1] in s;
  }

  lemma SentinelIsAWord()
    ensures NoSpace("sentinel") && LowerAll("sentinel")[0] == 's' && LowerAll("requirepass")[0] == 'r'
    ensures !SameIgnoringCase("sentinel", "requirepass")
  {
  }

  lemma WordsOfLast(w: string)
    requires w != "" && NoSpace(w)
    ensures Words(w) == [w]
  {
    WordsCons(w, "");
    assert w + "" == w;
  }

  lemma WordsOfOption(option: string, value: string)
    requires option != "" && NoSpace(option)
    ensures Words(SentinelDirective(option, value)) == ["sentinel", option] + Words(value)
  {
    SentinelIsAWord();
    WordsOfDirective(option, value);
    WordsOfDirective("sentinel", Directive(option, value));
  }

  // ----- the readers ---------------------------------------------------------------------

  /** What one line says the password is: the value of a `requirepass` directive. */
  function RequirepassIn(line: string): Option<string> {
    var (key, value) := FirstField(Trim(line));
    if SameIgnoringCase(key, "requirepass") && value.Some? then Some(Unquote(Trim(value.value))) else None
  }

  /** The first password a conf sets. */
  function ParseRequirepass(lines: seq<string>): Option<string> {
    if lines == [] then None
    else if RequirepassIn(lines[0]).Some? then RequirepassIn(lines[0])
    else ParseRequirepass(lines[1..])
  }

  /** The value of an `auth-pass` directive for this master set. */
  function AuthPassIn(line: string, masterName: string): Option<string> {
    var (keyword, rest) := FirstField(Trim(line));
    if rest.None? then None
    else
      var (option, tail) := FirstField(rest.value);
      if tail.None? then None
      else
        var (name, value) := FirstField(tail.value);
        if SameIgnoringCase(keyword, "sentinel") && SameIgnoringCase(option, "auth-pass") && name == masterName
        then Some(Unquote(Trim(if value.Some? then value.value else ""))) else None
  }

  function ConfAuthPass(lines: seq<string>, masterName: string): Option<string> {
    if lines == [] then None
    else if AuthPassIn(lines[0], masterName).Some? then AuthPassIn(lines[0], masterName)
    else ConfAuthPass(lines[1..], masterName)
  }

  predicate NamesMaster(line: string, masterName: string) {
    var f := Words(line);
    |f| >= 3 && SameIgnoringCase(f[0], "sentinel") && SameIgnoringCase(f[1], "monitor") && f[2] == masterName
  }

  /** The address on the first monitor line for this master set, even if it is malformed. */
  function ParseSentinelMonitor(lines: seq<string>, masterName: string): Option<(string, nat)> {
    if lines == [] then None
    else if NamesMaster(lines[0], masterName) then
      var f := Words(lines[0]);
      if |f| < 5 then None
      else
        var port := ParseUnsigned(f[4], U16_MAX);
        if port.Some? then Some((f[3], port.value)) else None
    else ParseSentinelMonitor(lines[1..], masterName)
  }

  function TrimStartQuotes(s: string): string {
    if s != "" && s[0] == '"' then TrimStartQuotes(s[1..]) else s
  }

  function TrimEndQuotes(s: string): string {
    if s != "" && s[|s| - 1] == '"' then TrimEndQuotes(s[..|s| - 1]) else s
  }

  function TrimQuotes(s: string): string {
    TrimEndQuotes(TrimStartQuotes(s))
  }

  /** A `requirepass` whose first word is more than quotes. */
  predicate SetsPassword(line: string) {
    var f := Words(line);
    |f| >= 2 && SameIgnoringCase(f[0], "requirepass") && TrimQuotes(f[1]) != ""
  }

  predicate ConfRequiresAuth(lines: seq<string>) {
    exists i :: 0 <= i < |lines| && SetsPassword(lines[i])
  }

  // ----- reading back what was written ------------------------------------------------------

  lemma RequirepassLineReads(password: string)
    requires '\n' !in password
    ensures RequirepassIn(Directive("requirepass", Quote(password))) == Some(password)
  {
    QuoteIsStable(password);
    var line := Directive("requirepass", Quote(password));
    assert line[0] == 'r' && line[|line| - 1] == '"';
    TrimIsIdentity(line);
    FirstFieldOf("requirepass", ' ', Quote(password));
    TrimIsIdentity(Quote(password));
    UnquoteQuote(password);
  }

  lemma {:induction false} TrimQuotesKeeps(s: string, i: nat)
    requires i < |s| && s[i] != '"'
    ensures TrimQuotes(s) != ""
  {
    TrimStartKeeps(s, i);
    var t := TrimStartQuotes(s);
    TrimEndKeeps(t);
  }

  lemma {:induction false} TrimStartKeeps(s: string, i: nat)
    requires i < |s| && s[i] != '"'
    ensures TrimStartQuotes(s) != "" && TrimStartQuotes(s)[0] != '"'
  {
    if s[0] == '"' {
      TrimStartKeeps(s[1..], i - 1);
    }
  }

  lemma {:induction false} TrimEndKeeps(s: string)
    requires s != "" && s[0] != '"'
    ensures TrimEndQuotes(s) != ""
  {
    if s[|s| - 1] == '"' {
      TrimEndKeeps(s[..|s| - 1]);
    }
  }

  /** The first word of a quoted value is a lone quote exactly when the value starts with
    * whitespace; of the empty value it is the two quotes. */
  lemma RequirepassLineSets(password: string)
    ensures SetsPassword(Directive("requirepass", Quote(password)))
            <==> password != "" && !IsSpace(password[0])
  {
    var q := Quote(password);
    WordsOfDirective("requirepass", q);
    var n := WordLength(q);
    assert q[0] == '"';
    assert n >= 1 && Words(q) == [q[..n]] + Words(q[n..]);
    if password == "" {
      assert q == "\"\"";
      WordLengthOf("\"\"", "");
      assert "\"\"" + "" == "\"\"" && q[..2] == q;
      assert TrimStartQuotes("\"") == "";
      assert q[1..] == "\"";
    } else {
      var first := Escape(password)[0];
      assert q[1] == first;
      if IsSpace(password[0]) {
        assert first == password[0];
        WordLengthOf("\"", q[1..]);
        assert "\"" + q[1..] == q;
        assert q[..1] == "\"" && q[..1][1..] == "";
      } else {
        assert !IsSpace(first) && first != '"';
        assert n >= 2 by {
          assert WordLength(q) == 1 + WordLength(q[1..]);
        }
        assert q[..n][1] == first;
        TrimQuotesKeeps(q[..n], 1);
      }
    }
  }
}
