/** The string operations the configuration code is written with: whitespace trimming
  * and splitting, lines, separators, host normalisation. */
module Text {
  import opened Wrappers

  /** A host and a port. */
  type Address = (string, int)

  lemma Regroup<T>(a: seq<T>, b: seq<T>, c: seq<T>)
    ensures a + b + c == a + (b + c)
  {
  }

  /** The White_Space characters of the Unicode Character Database. */
  predicate IsSpace(c: char) {
    var n := c as int;
    || 9 <= n <= 13 || n == 32 || n == 0x85 || n == 0xA0 || n == 0x1680
    || 0x2000 <= n <= 0x200A || n == 0x2028 || n == 0x2029 || n == 0x202F || n == 0x205F || n == 0x3000
  }

  function Lower(c: char): char {
    if 'A' <= c <= 'Z' then c - 'A' + 'a' else c
  }

  function LowerAll(s: string): (r: string)
    ensures |r| == |s|
  {
    seq(|s|, i requires 0 <= i < |s| => Lower(s[i]))
  }

  predicate SameIgnoringCase(a: string, b: string) {
    |a| == |b| && forall i | 0 <= i < |a| :: Lower(a[i]) == Lower(b[i])
  }

  predicate NoSpace(s: string) {
    forall i | 0 <= i < |s| :: !IsSpace(s[i])
  }

  // ----- trimming ----------------------------------------------------------------

  function TrimStart(s: string): string {
    if s != [] && IsSpace(s[0]) then TrimStart(s[1..]) else s
  }

  function TrimEnd(s: string): string {
    if s != [] && IsSpace(s[|s| - 1]) then TrimEnd(s[..|s| - 1]) else s
  }

  function Trim(s: string): string {
    TrimEnd(TrimStart(s))
  }

  function TrimEndDots(s: string): string {
    if s != [] && s[|s| - 1] == '.' then TrimEndDots(s[..|s| - 1]) else s
  }

  function NormalizeHost(host: string): string {
    LowerAll(TrimEndDots(Trim(host)))
  }

  /** A text that starts and ends in non-space characters is its own trim. */
  lemma TrimIsIdentity(s: string)
    requires s != [] ==> !IsSpace(s[0]) && !IsSpace(s[|s| - 1])
    ensures Trim(s) == s
  {
  }

  // ----- words (split_whitespace) ----------------------------------------------------

  /** Length of the longest prefix without whitespace. */
  function WordLength(s: string): (n: nat)
    ensures n <= |s| && NoSpace(s[..n])
    ensures n < |s| ==> IsSpace(s[n])
  {
    if s == [] || IsSpace(s[0]) then 0
    else
      var n := WordLength(s[1..]);
      assert s[..n + 1] == [s[0]] + s[1..][..n];
      n + 1
  }

  function Words(s: string): seq<string>
    decreases |s|
  {
    if s == [] then []
    else if IsSpace(s[0]) then Words(s[1..])
    else
      var n := WordLength(s);
      [s[..n]] + Words(s[n..])
  }

  lemma {:induction false} WordLengthOf(w: string, rest: string)
    requires NoSpace(w) && (rest == [] || IsSpace(rest[0]))
    ensures WordLength(w + rest) == |w|
  {
    if w == [] {
      assert w + rest == rest;
    } else {
      assert (w + rest)[1..] == w[1..] + rest;
      WordLengthOf(w[1..], rest);
    }
  }

  /** The first word of a text is read off, whatever whitespace follows it. */
  lemma WordsCons(w: string, rest: string)
    requires w != [] && NoSpace(w) && (rest == [] || IsSpace(rest[0]))
    ensures Words(w + rest) == [w] + Words(rest)
  {
    WordLengthOf(w, rest);
    var s := w + rest;
    assert !IsSpace(s[0]) by { assert s[0] == w[0] && w[0] in w; }
    assert s[..|w|] == w && s[|w|..] == rest;
  }

  lemma WordsSkip(c: char, rest: string)
    requires IsSpace(c)
    ensures Words([c] + rest) == Words(rest)
  {
    assert ([c] + rest)[1..] == rest;
  }

  lemma {:induction false} WordsHaveNoSpace(s: string)
    ensures forall w | w in Words(s) :: w != [] && NoSpace(w)
    decreases |s|
  {
    if s == [] {
    } else if IsSpace(s[0]) {
      WordsHaveNoSpace(s[1..]);
    } else {
      WordsHaveNoSpace(s[WordLength(s)..]);
    }
  }

  /** The words of `a` followed by a space and `b` are those of `a`, then those of `b`. */
  lemma {:induction false} WordsConcat(a: string, c: char, b: string)
    requires IsSpace(c)
    ensures Words(a + [c] + b) == Words(a) + Words(b)
    decreases |a|
  {
    var s := a + [c] + b;
    if a == [] {
      assert s == [c] + b;
      WordsSkip(c, b);
    } else if IsSpace(a[0]) {
      assert s == [a[0]] + (a[1..] + [c] + b);
      WordsSkip(a[0], a[1..] + [c] + b);
      WordsConcat(a[1..], c, b);
    } else {
      var n := WordLength(a);
      var w, rest := a[..n], a[n..] + [c] + b;
      assert s == w + rest && a == w + a[n..];
      WordsCons(w, rest);
      WordsConcat(a[n..], c, b);
    }
  }

  // ----- first field (splitn on a whitespace character) ----------------------------------

  /** The text up to the first whitespace character, and what follows that character. */
  function FirstField(s: string): (string, Option<string>) {
    var n := WordLength(s);
    (s[..n], if n < |s| then Some(s[n + 1..]) else None)
  }

  lemma FirstFieldOf(w: string, c: char, rest: string)
    requires NoSpace(w) && IsSpace(c)
    ensures FirstField(w + [c] + rest) == (w, Some(rest))
  {
    WordLengthOf(w, [c] + rest);
    assert w + [c] + rest == w + ([c] + rest);
  }

  // ----- separators ---------------------------------------------------------------------

  /** Index of the first `c`, or the length. */
  function IndexOf<T(==)>(s: seq<T>, c: T): (n: nat)
    ensures n <= |s| && c !in s[..n]
    ensures n < |s| ==> s[n] == c
  {
    if s == [] || s[0] == c then 0
    else
      var n := IndexOf(s[1..], c);
      assert s[..n + 1] == [s[0]] + s[1..][..n];
      n + 1
  }

  lemma {:induction false} IndexOfConcat<T>(a: seq<T>, c: T, b: seq<T>)
    requires c !in a
    ensures IndexOf(a + [c] + b, c) == |a|
  {
    if a == [] {
      assert (a + [c] + b)[0] == c;
    } else {
      assert (a + [c] + b)[1..] == a[1..] + [c] + b;
      IndexOfConcat(a[1..], c, b);
    }
  }

  function SplitOn<T(==)>(s: seq<T>, c: T): (parts: seq<seq<T>>)
    ensures parts != [] && parts[0] == s[..IndexOf(s, c)]
    ensures forall p | p in parts :: c !in p
    decreases |s|
  {
    var n := IndexOf(s, c);
    if n < |s| then [s[..n]] + SplitOn(s[n + 1..], c) else [s]
  }

  // ----- lines --------------------------------------------------------------------------

  function StripCarriageReturn(line: string): string {
    if line != [] && line[|line| - 1] == '\r' then line[..|line| - 1] else line
  }

  /** Lines as the standard library counts them: a newline ends a line and takes one
    * preceding carriage return with it, and no empty line follows the last newline. */
  function Lines(s: string): seq<string>
    decreases |s|
  {
    if s == [] then []
    else
      var n := IndexOf(s, '\n');
      if n < |s| then [StripCarriageReturn(s[..n])] + Lines(s[n + 1..]) else [s]
  }

  /** `lines.join("\n")` and a final newline. */
  function Render(lines: seq<string>): string {
    if |lines| <= 1 then (if lines == [] then "" else lines[0]) + "\n"
    else lines[0] + "\n" + Render(lines[1..])
  }

  /** A line that comes back as itself: no newline in it, no carriage return to lose. */
  predicate Stable(line: string) {
    '\n' !in line && (line != [] ==> line[|line| - 1] != '\r')
  }

  lemma LinesCons(line: string, rest: string)
    requires '\n' !in line
    ensures Lines(line + "\n" + rest) == [StripCarriageReturn(line)] + Lines(rest)
  {
    var s := line + "\n" + rest;
    IndexOfConcat(line, '\n', rest);
    assert s == line + ['\n'] + rest;
    assert s[..|line|] == line && s[|line| + 1..] == rest;
  }

  ghost predicate AllStable(lines: seq<string>) {
    forall i | 0 <= i < |lines| :: Stable(lines[i])
  }

  lemma {:induction false} LinesOfRender(lines: seq<string>)
    requires lines != [] && AllStable(lines)
    ensures Lines(Render(lines)) == lines
  {
    var line, rest := lines[0], lines[1..];
    if rest == [] {
      LinesCons(line, "");
      assert Render(lines) == line + "\n" + "";
    } else {
      LinesOfRender(rest);
      LinesCons(line, Render(rest));
      assert lines == [line] + rest;
    }
  }

  lemma {:induction false} LinesHaveNoNewline(s: string)
    ensures forall l | l in Lines(s) :: '\n' !in l
    decreases |s|
  {
    if s != [] {
      var n := IndexOf(s, '\n');
      if n < |s| {
        LinesHaveNoNewline(s[n + 1..]);
      } else {
        assert s[..n] == s;
      }
    }
  }
}
