/** The managed block of the hosts file: rendering the pinned addresses and splicing the
  * block into a file without touching the lines outside the markers. */
module HostsFile {
  import opened Text

  /** The two marker lines of the managed block. */
  datatype Markers = Markers(begin: string, end: string)

  // The begin marker in pieces: the solver reads a literal one letter at a time, and gives up
  // on one of eighty.
  const BEGIN := "# BEGIN redis-ha peer pins "
  const WRITTEN_BY := "(written by redis-wrapper; "
  const WARNING := "edits here are overwritten)"
  const MARKERS := Markers(BEGIN + WRITTEN_BY + WARNING, "# END redis-ha peer pins")

  /** What the laws below need of the markers: two different comment lines. */
  predicate WellFormed(m: Markers) {
    && m.begin != m.end
    && IsMarker(m.begin)
    && IsMarker(m.end)
  }

  predicate IsMarker(line: string) {
    line != "" && line[0] == '#' && '\n' !in line && line[|line| - 1] != '\n' && line[|line| - 1] != '\r'
  }

  lemma WrittenByIsOneLine()
    ensures '\n' !in WRITTEN_BY
  {
  }

  lemma WarningIsOneLine()
    ensures '\n' !in WARNING
  {
  }

  lemma MarkerFrom(a: string, b: string, c: string)
    requires '\n' !in a && '\n' !in b && '\n' !in c
    requires a != "" && a[0] == '#' && c != "" && c[|c| - 1] != '\n' && c[|c| - 1] != '\r'
    ensures IsMarker(a + b + c)
  {
  }

  lemma MarkersAreWellFormed()
    ensures WellFormed(MARKERS)
  {
    WrittenByIsOneLine();
    WarningIsOneLine();
    MarkerFrom(BEGIN, WRITTEN_BY, WARNING);
    MarkerFrom("# END redis-ha", " peer", " pins");
    assert MARKERS.end == "# END redis-ha" + " peer" + " pins";
  }

  /** A pinned name and its addresses as text, in table order. */
  datatype Entry = Entry(name: string, addresses: seq<string>)

  predicate HostnameChar(c: char) {
    'a' <= c <= 'z' || '0' <= c <= '9' || c == '-' || c == '_' || c == '.'
  }

  predicate IsHostnameShaped(host: string) {
    && 0 < |host| <= 253
    && (forall part | part in SplitOn(host, '.') :: 0 < |part| <= 63)
    && forall c | c in host :: HostnameChar(c)
  }

  predicate IsAddressText(a: string) {
    a != "" && forall c | c in a :: '0' <= c <= '9' || 'a' <= c <= 'f' || c == '.' || c == ':'
  }

  predicate Renderable(entries: seq<Entry>) {
    forall e | e in entries :: IsHostnameShaped(e.name) && forall a | a in e.addresses :: IsAddressText(a)
  }

  // ----- pieces: lines with their terminator ---------------------------------------

  function Pieces(s: string): seq<string>
    decreases |s|
  {
    if s == "" then []
    else
      var n := IndexOf(s, '\n');
      if n < |s| then [s[..n + 1]] + Pieces(s[n + 1..]) else [s]
  }

  function Concat(pieces: seq<string>): string {
    if pieces == [] then "" else pieces[0] + Concat(pieces[1..])
  }

  function TrimEol(s: string): string {
    if s != "" && (s[|s| - 1] == '\n' || s[|s| - 1] == '\r') then TrimEol(s[..|s| - 1]) else s
  }

  /** A line with its newline and no other. */
  predicate IsPiece(p: string) {
    p != "" && p[|p| - 1] == '\n' && '\n' !in p[..|p| - 1]
  }

  lemma PiecesCons(p: string, rest: string)
    requires IsPiece(p)
    ensures Pieces(p + rest) == [p] + Pieces(rest)
  {
    var line := p[..|p| - 1];
    IndexOfConcat(line, '\n', rest);
    assert p + rest == line + ['\n'] + rest;
    assert (p + rest)[..|p|] == p && (p + rest)[|p|..] == rest;
  }

  predicate ArePieces(pieces: seq<string>) {
    forall i | 0 <= i < |pieces| :: IsPiece(pieces[i])
  }

  lemma {:induction false} PiecesOfConcat(pieces: seq<string>, rest: string)
    requires ArePieces(pieces)
    ensures Pieces(Concat(pieces) + rest) == pieces + Pieces(rest)
  {
    if pieces == [] {
      assert Concat(pieces) + rest == rest;
    } else {
      var p, others := pieces[0], pieces[1..];
      PiecesOfConcat(others, rest);
      PiecesCons(p, Concat(others) + rest);
      Regroup(p, Concat(others), rest);
      Regroup([p], others, Pieces(rest));
      assert pieces == [p] + others;
    }
  }

  /** A line of a file: only the last one may lack its newline. */
  predicate IsLine(p: string) {
    p != "" && (IsPiece(p) || '\n' !in p)
  }

  predicate AreLines(pieces: seq<string>) {
    forall i | 0 <= i < |pieces| :: IsLine(pieces[i]) && (i < |pieces| - 1 ==> IsPiece(pieces[i]))
  }

  lemma {:induction false} PiecesAreLines(s: string)
    ensures AreLines(Pieces(s))
    decreases |s|
  {
    if s != "" {
      var n := IndexOf(s, '\n');
      if n < |s| {
        var rest := Pieces(s[n + 1..]);
        PiecesAreLines(s[n + 1..]);
        assert s[..n + 1][..n] == s[..n];
        assert IsPiece(s[..n + 1]);
        assert Pieces(s) == [s[..n + 1]] + rest;
      } else {
        assert s[..n] == s;
      }
    }
  }

  lemma {:induction false} ConcatSnoc(pieces: seq<string>, p: string)
    ensures Concat(pieces + [p]) == Concat(pieces) + p
  {
    if pieces == [] {
      assert pieces + [p] == [p];
    } else {
      assert (pieces + [p])[1..] == pieces[1..] + [p];
      ConcatSnoc(pieces[1..], p);
    }
  }

  // ----- outside the markers -----------------------------------------------------------

  function InBlockAfter(m: Markers, pieces: seq<string>): bool {
    if pieces == [] then false
    else
      var before, line := InBlockAfter(m, pieces[..|pieces| - 1]), TrimEol(pieces[|pieces| - 1]);
      if before then line != m.end else line == m.begin
  }

  /** The pieces the splice keeps, in order. */
  function Outside(m: Markers, pieces: seq<string>): seq<string> {
    if pieces == [] then []
    else
      var rest, p := pieces[..|pieces| - 1], pieces[|pieces| - 1];
      Outside(m, rest) + (if InBlockAfter(m, rest) || TrimEol(p) == m.begin then [] else [p])
  }

  function WithNewline(s: string): string {
    if s != "" && s[|s| - 1] != '\n' then s + "\n" else s
  }

  function Splice(m: Markers, existing: string, block: string): string {
    WithNewline(Concat(Outside(m, Pieces(existing)))) + block
  }

  /** One pass over the lines, dropping an earlier managed block, then the new one. */
  method SpliceBlock(m: Markers, existing: string, block: string) returns (out: string)
    ensures out == Splice(m, existing, block)
  {
    out := "";
    var inBlock := false;
    var pieces := Pieces(existing);
    for i := 0 to |pieces|
      invariant inBlock == InBlockAfter(m, pieces[..i])
      invariant out == Concat(Outside(m, pieces[..i]))
    {
      assert pieces[..i + 1] == pieces[..i] + [pieces[i]];
      assert pieces[..i + 1][..i] == pieces[..i];
      var trimmed := TrimEol(pieces[i]);
      if inBlock {
        if trimmed == m.end {
          inBlock := false;
        }
        assert Outside(m, pieces[..i + 1]) == Outside(m, pieces[..i]);
        continue;
      }
      if trimmed == m.begin {
        inBlock := true;
        assert Outside(m, pieces[..i + 1]) == Outside(m, pieces[..i]);
        continue;
      }
      ConcatSnoc(Outside(m, pieces[..i]), pieces[i]);
      out := out + pieces[i];
    }
    assert pieces[..|pieces|] == pieces;
    if out != "" && out[|out| - 1] != '\n' {
      out := out + "\n";
    }
    out := out + block;
  }

  /** Piece `j` begins a block that no later piece up to `n` ends. */
  ghost predicate OpensFor(m: Markers, pieces: seq<string>, j: int, n: int) {
    && 0 <= j < n <= |pieces| && TrimEol(pieces[j]) == m.begin
    && forall k | j < k < n :: TrimEol(pieces[k]) != m.end
  }

  lemma {:induction false} InBlockMeansOpened(m: Markers, pieces: seq<string>, n: nat)
    requires WellFormed(m)
    requires n <= |pieces|
    ensures InBlockAfter(m, pieces[..n]) <==> exists j :: OpensFor(m, pieces, j, n)
  {
    if n > 0 {
      InBlockMeansOpened(m, pieces, n - 1);
      assert pieces[..n][..n - 1] == pieces[..n - 1];
      var line := TrimEol(pieces[n - 1]);
      if InBlockAfter(m, pieces[..n - 1]) && line != m.end {
        var j :| OpensFor(m, pieces, j, n - 1);
        assert OpensFor(m, pieces, j, n);
      } else if line == m.begin {
        assert OpensFor(m, pieces, n - 1, n);
      }
      if j :| OpensFor(m, pieces, j, n) && j < n - 1 {
        assert OpensFor(m, pieces, j, n - 1);
      }
    }
  }

  /** A line is dropped exactly when a begin marker precedes it, or is it, with no end
    * marker in between. */
  ghost predicate Covered(m: Markers, pieces: seq<string>, i: int)
    requires 0 <= i < |pieces|
  {
    TrimEol(pieces[i]) == m.begin || exists j :: OpensFor(m, pieces, j, i)
  }

  /** The uncovered lines among the first `n`, in order. */
  ghost function KeptLines(m: Markers, pieces: seq<string>, n: nat): seq<string>
    requires n <= |pieces|
  {
    if n == 0 then [] else KeptLines(m, pieces, n - 1) + (if Covered(m, pieces, n - 1) then [] else [pieces[n - 1]])
  }

  /** The splice keeps exactly the lines no marker covers, in their order. */
  lemma {:induction false} OutsideIsUncovered(m: Markers, pieces: seq<string>, n: nat)
    requires WellFormed(m)
    requires n <= |pieces|
    ensures Outside(m, pieces[..n]) == KeptLines(m, pieces, n)
  {
    if n > 0 {
      OutsideIsUncovered(m, pieces, n - 1);
      InBlockMeansOpened(m, pieces, n - 1);
      assert pieces[..n][..n - 1] == pieces[..n - 1];
    }
  }

  // ----- rendering ------------------------------------------------------------------------

  function EntryLines(name: string, addresses: seq<string>): seq<string> {
    if addresses == [] then []
    else EntryLines(name, addresses[..|addresses| - 1]) + [addresses[|addresses| - 1] + "\t" + name]
  }

  function BlockLines(entries: seq<Entry>): seq<string> {
    if entries == [] then []
    else
      var e := entries[|entries| - 1];
      BlockLines(entries[..|entries| - 1]) + EntryLines(e.name, e.addresses)
  }

  function Terminated(lines: seq<string>): seq<string> {
    seq(|lines|, i requires 0 <= i < |lines| => lines[i] + "\n")
  }

  /** A block's pieces, its lines given. */
  function Wrapped(m: Markers, lines: seq<string>): seq<string> {
    [m.begin + "\n"] + Terminated(lines) + [m.end + "\n"]
  }

  function BlockPieces(m: Markers, entries: seq<Entry>): seq<string> {
    var lines := BlockLines(entries);
    if lines == [] then [] else Wrapped(m, lines)
  }

  method RenderBlock(m: Markers, entries: seq<Entry>) returns (block: string)
    ensures block == Concat(BlockPieces(m, entries))
    ensures BlockLines(entries) == [] ==> block == ""
    ensures BlockLines(entries) != [] ==>
              block == Concat([m.begin + "\n"] + Terminated(BlockLines(entries)) + [m.end + "\n"])
  {
    var lines: seq<string> := [];
    for i := 0 to |entries|
      invariant lines == BlockLines(entries[..i])
    {
      assert entries[..i + 1][..i] == entries[..i];
      var name, addresses := entries[i].name, entries[i].addresses;
      for k := 0 to |addresses|
        invariant lines == BlockLines(entries[..i]) + EntryLines(name, addresses[..k])
      {
        assert addresses[..k + 1][..k] == addresses[..k];
        lines := lines + [addresses[k] + "\t" + name];
      }
      assert addresses[..|addresses|] == addresses;
    }
    assert entries[..|entries|] == entries;
    if lines == [] {
      return "";
    }
    block := m.begin;
    block := block + "\n";
    ghost var pieces := [m.begin + "\n"];
    for i := 0 to |lines|
      invariant pieces == [m.begin + "\n"] + Terminated(lines)[..i]
      invariant block == Concat(pieces)
    {
      ConcatSnoc(pieces, lines[i] + "\n");
      pieces := pieces + [lines[i] + "\n"];
      block := block + lines[i];
      block := block + "\n";
    }
    ConcatSnoc(pieces, m.end + "\n");
    assert Terminated(lines)[..|lines|] == Terminated(lines);
    assert pieces + [m.end + "\n"] == BlockPieces(m, entries);
    block := block + m.end;
    block := block + "\n";
  }

  // ----- what a resolver reads in the block ------------------------------------------------

  /** An address and the name it is pinned for, in table order. */
  function Pairs(e: Entry): seq<(string, string)> {
    seq(|e.addresses|, k requires 0 <= k < |e.addresses| => (e.addresses[k], e.name))
  }

  function AllPairs(entries: seq<Entry>): seq<(string, string)> {
    if entries == [] then [] else AllPairs(entries[..|entries| - 1]) + Pairs(entries[|entries| - 1])
  }

  /** The line's first field is the address and its only other field the name. */
  ghost predicate Maps(line: string, pair: (string, string)) {
    Words(line) == [pair.0, pair.1]
  }

  ghost predicate AllMap(lines: seq<string>, pairs: seq<(string, string)>) {
    |lines| == |pairs| && forall i | 0 <= i < |lines| :: Maps(lines[i], pairs[i])
  }

  lemma LineMaps(address: string, name: string)
    requires address != "" && NoSpace(address) && name != "" && NoSpace(name)
    ensures Maps(address + "\t" + name, (address, name))
  {
    assert address + "\t" + name == address + ("\t" + name) && ("\t" + name)[1..] == name && name + "" == name;
    WordsCons(address, "\t" + name);
    WordsCons(name, "");
  }

  lemma HostnamesHaveNoSpace(host: string)
    requires IsHostnameShaped(host)
    ensures host != "" && NoSpace(host)
  {
    forall i | 0 <= i < |host|
      ensures !IsSpace(host[i])
    {
      assert host[i] in host;
    }
  }

  lemma AddressesHaveNoSpace(a: string)
    requires IsAddressText(a)
    ensures NoSpace(a)
  {
    forall i | 0 <= i < |a|
      ensures !IsSpace(a[i])
    {
      assert a[i] in a;
    }
  }

  lemma {:induction false} EntryLinesMap(name: string, addresses: seq<string>)
    requires IsHostnameShaped(name) && forall i | 0 <= i < |addresses| :: IsAddressText(addresses[i])
    ensures AllMap(EntryLines(name, addresses), Pairs(Entry(name, addresses)))
  {
    if addresses != [] {
      var last, rest := addresses[|addresses| - 1], addresses[..|addresses| - 1];
      EntryLinesMap(name, rest);
      HostnamesHaveNoSpace(name);
      AddressesHaveNoSpace(last);
      LineMaps(last, name);
      assert Pairs(Entry(name, addresses)) == Pairs(Entry(name, rest)) + [(last, name)];
    }
  }

  lemma LastIsRenderable(entries: seq<Entry>)
    requires Renderable(entries) && entries != []
    ensures var e := entries[|entries| - 1];
            IsHostnameShaped(e.name) && forall i | 0 <= i < |e.addresses| :: IsAddressText(e.addresses[i])
    ensures Renderable(entries[..|entries| - 1])
  {
    var e := entries[|entries| - 1];
    assert e in entries && forall i | 0 <= i < |e.addresses| :: e.addresses[i] in e.addresses;
  }

  lemma MapConcat(a: seq<string>, b: seq<string>, p: seq<(string, string)>, q: seq<(string, string)>)
    requires AllMap(a, p) && AllMap(b, q)
    ensures AllMap(a + b, p + q)
  {
  }

  /** Line by line, the block pins each address of each entry, in order, to that entry's name. */
  lemma {:induction false} BlockMapsTheTable(entries: seq<Entry>)
    requires Renderable(entries)
    ensures AllMap(BlockLines(entries), AllPairs(entries))
  {
    if entries != [] {
      var rest, e := entries[..|entries| - 1], entries[|entries| - 1];
      LastIsRenderable(entries);
      BlockMapsTheTable(rest);
      EntryLinesMap(e.name, e.addresses);
      assert e == Entry(e.name, e.addresses);
      MapConcat(BlockLines(rest), EntryLines(e.name, e.addresses), AllPairs(rest), Pairs(e));
    }
  }

  // ----- the splice laws --------------------------------------------------------------------

  lemma TrimEolOfLine(line: string)
    requires line != "" ==> line[|line| - 1] != '\n' && line[|line| - 1] != '\r'
    ensures TrimEol(line + "\n") == line && TrimEol(line) == line
  {
    assert (line + "\n")[..|line|] == line;
  }

  /** What an entry line looks like from outside: one piece that is no marker. */
  predicate IsEntryLine(line: string) {
    && |line| >= 2 && '\n' !in line && line[0] != '#'
    && line[|line| - 1] != '\n' && line[|line| - 1] != '\r'
  }

  lemma {:induction false} EntryLinesAreEntryLines(name: string, addresses: seq<string>)
    requires IsHostnameShaped(name) && forall a | a in addresses :: IsAddressText(a)
    ensures forall l | l in EntryLines(name, addresses) :: IsEntryLine(l)
  {
    if addresses != [] {
      EntryLinesAreEntryLines(name, addresses[..|addresses| - 1]);
      var a := addresses[|addresses| - 1];
      var l := a + "\t" + name;
      assert a in addresses && IsAddressText(a);
      assert l[0] == a[0] && a[0] in a;
      assert l[|l| - 1] == name[|name| - 1] && name[|name| - 1] in name;
    }
  }

  lemma {:induction false} BlockLinesAreEntryLines(entries: seq<Entry>)
    requires Renderable(entries)
    ensures forall l | l in BlockLines(entries) :: IsEntryLine(l)
  {
    if entries != [] {
      BlockLinesAreEntryLines(entries[..|entries| - 1]);
      EntryLinesAreEntryLines(entries[|entries| - 1].name, entries[|entries| - 1].addresses);
    }
  }

  lemma {:induction false} OutsideConcat(m: Markers, a: seq<string>, b: seq<string>)
    requires !InBlockAfter(m, a)
    ensures Outside(m, a + b) == Outside(m, a) + Outside(m, b) && InBlockAfter(m, a + b) == InBlockAfter(m, b)
  {
    if b == [] {
      assert a + b == a;
    } else {
      assert (a + b)[..|a + b| - 1] == a + b[..|b| - 1];
      OutsideConcat(m, a, b[..|b| - 1]);
    }
  }

  lemma {:induction false} InsideBlock(m: Markers, lines: seq<string>)
    requires WellFormed(m)
    requires forall l | l in lines :: IsEntryLine(l)
    ensures var pieces := [m.begin + "\n"] + Terminated(lines); Outside(m, pieces) == [] && InBlockAfter(m, pieces)
  {
    var pieces := [m.begin + "\n"] + Terminated(lines);
    if lines == [] {
      TrimEolOfLine(m.begin);
      assert pieces == [m.begin + "\n"] && pieces[..0] == [];
    } else {
      var n := |lines| - 1;
      InsideBlock(m, lines[..n]);
      assert pieces[..n + 1] == [m.begin + "\n"] + Terminated(lines[..n]);
      assert lines[n] in lines && IsEntryLine(lines[n]);
      TrimEolOfLine(lines[n]);
      assert lines[n][0] != m.end[0];
    }
  }

  lemma MarkersArePieces(m: Markers)
    requires WellFormed(m)
    ensures IsPiece(m.begin + "\n") && IsPiece(m.end + "\n")
    ensures TrimEol(m.begin + "\n") == m.begin && TrimEol(m.end + "\n") == m.end
  {
    TrimEolOfLine(m.begin);
    TrimEolOfLine(m.end);
    assert (m.begin + "\n")[..|m.begin|] == m.begin;
    assert (m.end + "\n")[..|m.end|] == m.end;
  }

  lemma WrappedIsAllInside(m: Markers, lines: seq<string>)
    requires WellFormed(m)
    requires forall l | l in lines :: IsEntryLine(l)
    ensures Outside(m, Wrapped(m, lines)) == [] && !InBlockAfter(m, Wrapped(m, lines))
  {
    InsideBlock(m, lines);
    CloseBlock(m, [m.begin + "\n"] + Terminated(lines));
  }

  lemma WrappedArePieces(m: Markers, lines: seq<string>)
    requires WellFormed(m)
    requires forall l | l in lines :: '\n' !in l
    ensures ArePieces(Wrapped(m, lines))
  {
    MarkersArePieces(m);
  }

  lemma BlockIsAllInside(m: Markers, entries: seq<Entry>)
    requires WellFormed(m)
    requires Renderable(entries)
    ensures Outside(m, BlockPieces(m, entries)) == [] && !InBlockAfter(m, BlockPieces(m, entries))
    ensures ArePieces(BlockPieces(m, entries))
  {
    BlockLinesAreEntryLines(entries);
    WrappedIsAllInside(m, BlockLines(entries));
    WrappedArePieces(m, BlockLines(entries));
  }

  lemma CloseBlock(m: Markers, unclosed: seq<string>)
    requires WellFormed(m)
    requires Outside(m, unclosed) == [] && InBlockAfter(m, unclosed)
    ensures Outside(m, unclosed + [m.end + "\n"]) == [] && !InBlockAfter(m, unclosed + [m.end + "\n"])
  {
    MarkersArePieces(m);
    assert (unclosed + [m.end + "\n"])[..|unclosed|] == unclosed;
  }

  /** The kept lines of a file, with a newline added to the last one if it has none. */
  function Normalised(kept: seq<string>): seq<string> {
    if kept == [] then [] else kept[..|kept| - 1] + [WithNewline(kept[|kept| - 1])]
  }

  ghost predicate NoneBegins(m: Markers, pieces: seq<string>) {
    forall i | 0 <= i < |pieces| :: TrimEol(pieces[i]) != m.begin
  }

  lemma {:induction false} OutsideKeepsPieces(m: Markers, pieces: seq<string>)
    requires AreLines(pieces)
    ensures AreLines(Outside(m, pieces)) && NoneBegins(m, Outside(m, pieces))
    ensures ArePieces(pieces) ==> ArePieces(Outside(m, pieces))
  {
    if pieces != [] {
      var rest := pieces[..|pieces| - 1];
      assert ArePieces(rest);
      OutsideKeepsPieces(m, rest);
    }
  }

  lemma NormalisedConcat(kept: seq<string>)
    requires AreLines(kept)
    ensures Concat(Normalised(kept)) == WithNewline(Concat(kept))
  {
    if kept != [] {
      var rest, last := kept[..|kept| - 1], kept[|kept| - 1];
      assert kept == rest + [last];
      ConcatSnoc(rest, last);
      ConcatSnoc(rest, WithNewline(last));
    }
  }

  lemma NormalisedPieces(m: Markers, existing: string)
    ensures var kept := Normalised(Outside(m, Pieces(existing)));
            && ArePieces(kept)
            && NoneBegins(m, kept)
            && Concat(kept) == WithNewline(Concat(Outside(m, Pieces(existing))))
  {
    PiecesAreLines(existing);
    OutsideKeepsPieces(m, Pieces(existing));
    NormalisedConcat(Outside(m, Pieces(existing)));
  }

  lemma {:induction false} NothingToDrop(m: Markers, pieces: seq<string>)
    requires NoneBegins(m, pieces)
    ensures Outside(m, pieces) == pieces && !InBlockAfter(m, pieces)
  {
    if pieces != [] {
      NothingToDrop(m, pieces[..|pieces| - 1]);
    }
  }

  /** The lines outside the markers survive a splice of any rendered block exactly. */
  lemma SpliceKeepsOutside(m: Markers, existing: string, entries: seq<Entry>)
    requires WellFormed(m)
    requires Renderable(entries)
    ensures Outside(m, Pieces(Splice(m, existing, Concat(BlockPieces(m, entries)))))
            == Normalised(Outside(m, Pieces(existing)))
  {
    var kept, block := Normalised(Outside(m, Pieces(existing))), BlockPieces(m, entries);
    NormalisedPieces(m, existing);
    BlockIsAllInside(m, entries);
    PiecesOfConcat(kept, Concat(block));
    PiecesOfConcat(block, "");
    assert Concat(block) + "" == Concat(block);
    assert block + Pieces("") == block;
    NothingToDrop(m, kept);
    OutsideConcat(m, kept, block);
    assert kept + [] == kept;
  }

  /** A later splice replaces an earlier one: for every file and any two rendered blocks,
    * splicing twice is splicing the second block. */
  lemma LastSpliceWins(m: Markers, existing: string, first: seq<Entry>, second: string)
    requires WellFormed(m)
    requires Renderable(first)
    ensures Splice(m, Splice(m, existing, Concat(BlockPieces(m, first))), second) == Splice(m, existing, second)
  {
    SpliceKeepsOutside(m, existing, first);
    NormalisedPieces(m, existing);
    var kept := Normalised(Outside(m, Pieces(existing)));
    if kept != [] {
      var rest, last := kept[..|kept| - 1], kept[|kept| - 1];
      assert kept == rest + [last] && last in kept;
      ConcatSnoc(rest, last);
    }
  }

  /** Splicing nothing over a spliced file gives back the file's own lines. */
  lemma EmptySpliceRestores(m: Markers, existing: string, entries: seq<Entry>)
    requires WellFormed(m)
    requires Renderable(entries)
    ensures Splice(m, Splice(m, existing, Concat(BlockPieces(m, entries))), "")
            == Concat(Normalised(Outside(m, Pieces(existing))))
  {
    LastSpliceWins(m, existing, entries, "");
    NormalisedPieces(m, existing);
  }
}
