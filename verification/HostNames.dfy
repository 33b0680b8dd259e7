/** Which spellings of a host are one host: case, surrounding whitespace and final dots do not
  * count, and nothing else is lost. */
module HostNames {
  import opened Text

  ghost predicate Blank(s: string) {
    forall i | 0 <= i < |s| :: IsSpace(s[i])
  }

  ghost predicate Dots(s: string) {
    forall i | 0 <= i < |s| :: s[i] == '.'
  }

  predicate IsUpper(c: char) {
    'A' <= c <= 'Z'
  }

  /** `r` is `s` with its ASCII capitals in lower case. */
  ghost predicate InLowerCase(r: string, s: string) {
    |r| == |s| && forall i | 0 <= i < |s| :: r[i] == if IsUpper(s[i]) then s[i] + 32 as char else s[i]
  }

  lemma {:induction false} TrimStartSkips(blank: string, s: string)
    requires Blank(blank)
    ensures TrimStart(blank + s) == TrimStart(s)
  {
    if blank != "" {
      assert (blank + s)[1..] == blank[1..] + s;
      TrimStartSkips(blank[1..], s);
    } else {
      assert blank + s == s;
    }
  }

  lemma {:induction false} TrimEndSkips(s: string, blank: string)
    requires Blank(blank)
    ensures TrimEnd(s + blank) == TrimEnd(s)
  {
    if blank != "" {
      assert (s + blank)[..|s + blank| - 1] == s + blank[..|blank| - 1];
      TrimEndSkips(s, blank[..|blank| - 1]);
    } else {
      assert s + blank == s;
    }
  }

  lemma {:induction false} DotsAreSkipped(s: string, dots: string)
    requires Dots(dots) && (s != "" ==> s[|s| - 1] != '.')
    ensures TrimEndDots(s + dots) == s
  {
    if dots != "" {
      assert (s + dots)[..|s + dots| - 1] == s + dots[..|dots| - 1];
      DotsAreSkipped(s, dots[..|dots| - 1]);
    } else {
      assert s + dots == s;
    }
  }

  lemma TrimOfPadded(before: string, text: string, after: string)
    requires Blank(before) && Blank(after)
    requires text != "" ==> !IsSpace(text[0]) && !IsSpace(text[|text| - 1])
    ensures Trim(before + text + after) == text
  {
    Regroup(before, text, after);
    TrimStartSkips(before, text + after);
    if text == "" {
      assert text + after == after + "";
      TrimStartSkips(after, "");
    } else {
      assert (text + after)[0] == text[0];
      TrimEndSkips(text, after);
    }
  }

  /** A host, with any whitespace around it and any final dots, is normalised to the host in
    * lower case. Every text is of this form. */
  lemma NormalisedHost(before: string, host: string, dots: string, after: string)
    requires Blank(before) && Dots(dots) && Blank(after)
    requires host != "" ==> !IsSpace(host[0]) && host[|host| - 1] != '.'
    requires dots == "" && host != "" ==> !IsSpace(host[|host| - 1])
    ensures InLowerCase(NormalizeHost(before + (host + dots) + after), host)
  {
    var text := host + dots;
    if text != "" {
      assert text[0] == if host != "" then host[0] else dots[0];
      assert text[|text| - 1] == if dots != "" then dots[|dots| - 1] else host[|host| - 1];
    }
    TrimOfPadded(before, text, after);
    DotsAreSkipped(host, dots);
    assert forall i | 0 <= i < |host| :: Lower(host[i]) == if IsUpper(host[i]) then host[i] + 32 as char else host[i];
  }

  lemma {:induction false} LeadingBlank(s: string) returns (before: string)
    ensures Blank(before) && s == before + TrimStart(s)
    ensures TrimStart(s) != "" ==> !IsSpace(TrimStart(s)[0])
  {
    before := "";
    if s != "" && IsSpace(s[0]) {
      var rest := LeadingBlank(s[1..]);
      before := [s[0]] + rest;
    }
  }

  lemma {:induction false} TrailingBlank(s: string) returns (after: string)
    ensures Blank(after) && s == TrimEnd(s) + after
    ensures TrimEnd(s) != "" ==> !IsSpace(TrimEnd(s)[|TrimEnd(s)| - 1]) && TrimEnd(s)[0] == s[0]
  {
    after := "";
    if s != "" && IsSpace(s[|s| - 1]) {
      var rest := TrailingBlank(s[..|s| - 1]);
      after := rest + [s[|s| - 1]];
    }
  }

  lemma {:induction false} FinalDots(s: string) returns (dots: string)
    ensures Dots(dots) && s == TrimEndDots(s) + dots
    ensures var host := TrimEndDots(s);
            host != "" ==> host[|host| - 1] != '.' && host[0] == s[0] && (dots == "" ==> host == s)
  {
    dots := "";
    if s != "" && s[|s| - 1] == '.' {
      var rest := FinalDots(s[..|s| - 1]);
      dots := rest + ".";
    }
  }

  /** So nothing else is dropped or changed: every text has such a form. */
  lemma EveryTextIsPadded(s: string) returns (before: string, host: string, dots: string, after: string)
    ensures s == before + (host + dots) + after && Blank(before) && Dots(dots) && Blank(after)
    ensures host != "" ==> !IsSpace(host[0]) && host[|host| - 1] != '.'
    ensures dots == "" && host != "" ==> !IsSpace(host[|host| - 1])
    ensures InLowerCase(NormalizeHost(s), host)
  {
    before := LeadingBlank(s);
    after := TrailingBlank(TrimStart(s));
    dots := FinalDots(Trim(s));
    host := TrimEndDots(Trim(s));
    Regroup(before, host + dots, after);
    NormalisedHost(before, host, dots, after);
  }

  predicate Plain(h: string) {
    h != "" ==> !IsSpace(h[0]) && !IsSpace(h[|h| - 1]) && h[|h| - 1] != '.'
  }

  lemma PlainIsLowered(h: string)
    requires Plain(h)
    ensures NormalizeHost(h) == LowerAll(h)
  {
    TrimIsIdentity(h);
  }

  lemma SameLowered(a: string, b: string)
    ensures LowerAll(a) == LowerAll(b) <==> SameIgnoringCase(a, b)
  {
    if LowerAll(a) == LowerAll(b) {
      assert forall i | 0 <= i < |a| :: LowerAll(a)[i] == Lower(a[i]) && LowerAll(b)[i] == Lower(b[i]);
    }
  }

  /** Two hosts are one exactly when what is left of them agrees but for case. */
  lemma SameHostIff(a: string, b: string)
    requires Plain(a) && Plain(b)
    ensures NormalizeHost(a) == NormalizeHost(b) <==> SameIgnoringCase(a, b)
  {
    PlainIsLowered(a);
    PlainIsLowered(b);
    SameLowered(a, b);
  }
}
