/** Which dump.rdb this image's own server left on the volume: the identity recorded beside
  * it, its text, and the ownership test. */
module RdbOwner {
  import opened Wrappers
  import opened Text
  import opened Decimal

  /** One write of dump.rdb. */
  datatype Identity = Identity(secs: nat, nanos: nat, len: nat)

  predicate Representable(id: Identity) {
    id.secs <= U64_MAX && id.nanos < 1_000_000_000 && id.len <= U64_MAX
  }

  function Stamp(secs: nat, nanos: nat): string {
    Digits(secs) + ['.'] + PaddedDigits(nanos, 9)
  }

  function MtimeField(id: Identity): string {
    "mtime=" + Stamp(id.secs, id.nanos)
  }

  function LenField(id: Identity): string {
    "len=" + Digits(id.len)
  }

  function ThreeWords(a: string, b: string, c: string): string {
    a + (" " + (b + (" " + (c + "\n"))))
  }

  function RenderIdentity(id: Identity): string {
    ThreeWords("dump.rdb", MtimeField(id), LenField(id))
  }

  function SplitOnce(s: string, c: char): Option<(string, string)> {
    var n := IndexOf(s, c);
    if n < |s| then Some((s[..n], s[n + 1..])) else None
  }

  function ParseMtime(value: string): Option<(nat, nat)> {
    var parts := SplitOnce(value, '.');
    if parts.None? then None
    else
      var secs, nanos := ParseUnsigned(parts.value.0, U64_MAX), ParseUnsigned(parts.value.1, U32_MAX);
      if secs.Some? && nanos.Some? then Some((secs.value, nanos.value)) else None
  }

  /** The fields still to read, with what has been read so far: a malformed field ends the
    * parse, a repeated one replaces the earlier value, anything else is skipped. */
  function ParseFields(fields: seq<string>, mtime: Option<(nat, nat)>, len: Option<nat>): Option<Identity> {
    if fields == [] then
      if mtime.Some? && len.Some? then Some(Identity(mtime.value.0, mtime.value.1, len.value)) else None
    else if "mtime=" <= fields[0] then
      var value := ParseMtime(fields[0][6..]);
      if value.None? then None else ParseFields(fields[1..], value, len)
    else if "len=" <= fields[0] then
      var value := ParseUnsigned(fields[0][4..], U64_MAX);
      if value.None? then None else ParseFields(fields[1..], mtime, value)
    else ParseFields(fields[1..], mtime, len)
  }

  function Parse(text: string): Option<Identity> {
    ParseFields(Words(text), None, None)
  }

  method ParseIdentity(text: string) returns (id: Option<Identity>)
    ensures id == Parse(text)
  {
    var mtime: Option<(nat, nat)>, len: Option<nat> := None, None;
    var fields := Words(text);
    for i := 0 to |fields|
      invariant Parse(text) == ParseFields(fields[i..], mtime, len)
    {
      var field := fields[i];
      assert fields[i..][0] == field && fields[i..][1..] == fields[i + 1..];
      if "mtime=" <= field {
        var value := ParseMtime(field[6..]);
        if value.None? {
          return None;
        }
        mtime := value;
      } else if "len=" <= field {
        var value := ParseUnsigned(field[4..], U64_MAX);
        if value.None? {
          return None;
        }
        len := value;
      }
    }
    if mtime.None? || len.None? {
      return None;
    }
    id := Some(Identity(mtime.value.0, mtime.value.1, len.value));
  }

  // ----- what a marker says ------------------------------------------------------------------

  predicate IsMtime(field: string) {
    "mtime=" <= field
  }

  predicate IsLen(field: string) {
    "len=" <= field
  }

  /** Every field that announces a time or a length carries one. */
  ghost predicate WellFormed(fields: seq<string>) {
    forall i | 0 <= i < |fields| ::
      && (IsMtime(fields[i]) ==> ParseMtime(fields[i][6..]).Some?)
      && (IsLen(fields[i]) ==> ParseUnsigned(fields[i][4..], U64_MAX).Some?)
  }

  /** Place `i` is the last field of its kind. */
  ghost predicate IsLast(fields: seq<string>, i: int, kind: string -> bool) {
    0 <= i < |fields| && kind(fields[i]) && forall k | i < k < |fields| :: !kind(fields[k])
  }

  ghost predicate NoneIs(fields: seq<string>, kind: string -> bool) {
    forall k | 0 <= k < |fields| :: !kind(fields[k])
  }

  /** The last time is this one; without any, the one given. */
  ghost predicate TimeIs(fields: seq<string>, before: Option<(nat, nat)>, mtime: (nat, nat)) {
    || (NoneIs(fields, IsMtime) && before == Some(mtime))
    || exists i :: IsLast(fields, i, IsMtime) && ParseMtime(fields[i][6..]) == Some(mtime)
  }

  ghost predicate LengthIs(fields: seq<string>, before: Option<nat>, len: nat) {
    || (NoneIs(fields, IsLen) && before == Some(len))
    || exists i :: IsLast(fields, i, IsLen) && ParseUnsigned(fields[i][4..], U64_MAX) == Some(len)
  }

  lemma TimeStep(fields: seq<string>, before: Option<(nat, nat)>, mtime: (nat, nat))
    requires fields != []
    ensures TimeIs(fields, before, mtime)
            <==> TimeIs(fields[1..], if IsMtime(fields[0]) then ParseMtime(fields[0][6..]) else before, mtime)
  {
    var rest := fields[1..];
    assert NoneIs(fields, IsMtime) <==> !IsMtime(fields[0]) && NoneIs(rest, IsMtime) by {
      assert forall k | 0 <= k < |rest| :: rest[k] == fields[k + 1];
    }
    forall i
      ensures i > 0 ==> (IsLast(fields, i, IsMtime) <==> IsLast(rest, i - 1, IsMtime))
      ensures IsLast(fields, 0, IsMtime) <==> IsMtime(fields[0]) && NoneIs(rest, IsMtime)
    {
      assert forall k | 0 <= k < |rest| :: rest[k] == fields[k + 1];
    }
    if i :| IsLast(rest, i, IsMtime) && ParseMtime(rest[i][6..]) == Some(mtime) {
      assert IsLast(fields, i + 1, IsMtime);
    }
  }

  lemma LengthStep(fields: seq<string>, before: Option<nat>, len: nat)
    requires fields != []
    ensures LengthIs(fields, before, len)
            <==> LengthIs(fields[1..], if IsLen(fields[0]) then ParseUnsigned(fields[0][4..], U64_MAX) else before, len)
  {
    var rest := fields[1..];
    assert NoneIs(fields, IsLen) <==> !IsLen(fields[0]) && NoneIs(rest, IsLen) by {
      assert forall k | 0 <= k < |rest| :: rest[k] == fields[k + 1];
    }
    forall i
      ensures i > 0 ==> (IsLast(fields, i, IsLen) <==> IsLast(rest, i - 1, IsLen))
      ensures IsLast(fields, 0, IsLen) <==> IsLen(fields[0]) && NoneIs(rest, IsLen)
    {
      assert forall k | 0 <= k < |rest| :: rest[k] == fields[k + 1];
    }
    if i :| IsLast(rest, i, IsLen) && ParseUnsigned(rest[i][4..], U64_MAX) == Some(len) {
      assert IsLast(fields, i + 1, IsLen);
    }
  }

  lemma WellFormedStep(fields: seq<string>)
    requires fields != []
    ensures WellFormed(fields)
            <==> && WellFormed(fields[1..])
                 && (IsMtime(fields[0]) ==> ParseMtime(fields[0][6..]).Some?)
                 && (IsLen(fields[0]) ==> ParseUnsigned(fields[0][4..], U64_MAX).Some?)
  {
    assert forall k | 0 <= k < |fields[1..]| :: fields[1..][k] == fields[k + 1];
  }

  lemma {:induction false} FieldsSay(fields: seq<string>, mtime: Option<(nat, nat)>, len: Option<nat>, id: Identity)
    ensures ParseFields(fields, mtime, len) == Some(id)
            <==> WellFormed(fields) && TimeIs(fields, mtime, (id.secs, id.nanos)) && LengthIs(fields, len, id.len)
    decreases |fields|
  {
    if fields != [] {
      WellFormedStep(fields);
      TimeStep(fields, mtime, (id.secs, id.nanos));
      LengthStep(fields, len, id.len);
      var field := fields[0];
      assert IsMtime(field) ==> field[0] == 'm';
      assert IsLen(field) ==> field[0] == 'l';
      FieldsSay(fields[1..], if IsMtime(field) then ParseMtime(field[6..]) else mtime,
                if IsLen(field) then ParseUnsigned(field[4..], U64_MAX) else len, id);
    }
  }

  /** A marker records exactly the identity of its last time and its last length, if it has both and
    * no field announces what it does not carry. */
  lemma MarkerSays(text: string, id: Identity)
    ensures Parse(text) == Some(id)
            <==> && WellFormed(Words(text))
                 && (exists i :: IsLast(Words(text), i, IsMtime)
                                 && ParseMtime(Words(text)[i][6..]) == Some((id.secs, id.nanos)))
                 && (exists i :: IsLast(Words(text), i, IsLen)
                                 && ParseUnsigned(Words(text)[i][4..], U64_MAX) == Some(id.len))
  {
    FieldsSay(Words(text), None, None, id);
  }

  lemma PaddedAreVisible(n: nat, width: nat)
    ensures NoSpace(PaddedDigits(n, width))
  {
    var d := PaddedDigits(n, width);
    forall i | 0 <= i < |d|
      ensures !IsSpace(d[i])
    {
      assert d[i] in d;
    }
  }

  lemma StampParses(secs: nat, nanos: nat)
    requires secs <= U64_MAX && nanos < 1_000_000_000
    ensures NoSpace(Stamp(secs, nanos)) && ParseMtime(Stamp(secs, nanos)) == Some((secs, nanos))
  {
    var left, right := Digits(secs), PaddedDigits(nanos, 9);
    DigitsAreVisible(secs);
    PaddedAreVisible(nanos, 9);
    IndexOfConcat(left, '.', right);
    SplitAround(left, '.', right);
    ParseOfDigits(secs, U64_MAX);
    ParseOfPaddedDigits(nanos, 9, U32_MAX);
  }

  lemma SplitAround(left: string, c: char, right: string)
    requires IndexOf(left + [c] + right, c) == |left|
    ensures SplitOnce(left + [c] + right, c) == Some((left, right))
  {
    var s := left + [c] + right;
    assert s[..|left|] == left && s[|left| + 1..] == right;
  }

  lemma MtimeFieldParses(id: Identity)
    requires Representable(id)
    ensures "mtime=" <= MtimeField(id) && NoSpace(MtimeField(id))
    ensures ParseMtime(MtimeField(id)[6..]) == Some((id.secs, id.nanos))
  {
    StampParses(id.secs, id.nanos);
  }

  lemma LenFieldParses(id: Identity)
    requires Representable(id)
    ensures "len=" <= LenField(id) && !("mtime=" <= LenField(id)) && NoSpace(LenField(id))
    ensures ParseUnsigned(LenField(id)[4..], U64_MAX) == Some(id.len)
  {
    DigitsAreVisible(id.len);
    ParseOfDigits(id.len, U64_MAX);
    assert LenField(id)[0] == 'l';
    assert LenField(id)[4..] == Digits(id.len);
  }

  lemma RenderedWords(a: string, b: string, c: string)
    requires a != "" && NoSpace(a) && b != "" && NoSpace(b) && c != "" && NoSpace(c)
    ensures Words(ThreeWords(a, b, c)) == [a, b, c]
  {
    var third := c + "\n";
    var second := b + (" " + third);
    WordsCons(c, "\n");
    assert ['\n'] + "" == "\n";
    WordsCons(b, " " + third);
    WordsCons(a, " " + second);
  }

  lemma NameIsNoField()
    ensures !("mtime=" <= "dump.rdb") && !("len=" <= "dump.rdb") && NoSpace("dump.rdb")
  {
    assert "dump.rdb"[0] == 'd';
  }

  lemma FieldsParse(name: string, mtime: string, len: string, stamp: (nat, nat), size: nat)
    requires name != "" && NoSpace(name) && !("mtime=" <= name) && !("len=" <= name)
    requires NoSpace(mtime) && "mtime=" <= mtime && ParseMtime(mtime[6..]) == Some(stamp)
    requires NoSpace(len) && "len=" <= len && !("mtime=" <= len) && ParseUnsigned(len[4..], U64_MAX) == Some(size)
    ensures Parse(ThreeWords(name, mtime, len)) == Some(Identity(stamp.0, stamp.1, size))
  {
    RenderedWords(name, mtime, len);
    ThreeFields(name, mtime, len, stamp, size);
  }

  /** The marker reads back as the identity it was written for. */
  lemma ParseOfRender(id: Identity)
    requires Representable(id)
    ensures Parse(RenderIdentity(id)) == Some(id)
  {
    MtimeFieldParses(id);
    LenFieldParses(id);
    NameIsNoField();
    FieldsParse("dump.rdb", MtimeField(id), LenField(id), (id.secs, id.nanos), id.len);
  }

  lemma ThreeFields(name: string, mtime: string, len: string, stamp: (nat, nat), size: nat)
    requires !("mtime=" <= name) && !("len=" <= name)
    requires "mtime=" <= mtime && ParseMtime(mtime[6..]) == Some(stamp)
    requires "len=" <= len && !("mtime=" <= len) && ParseUnsigned(len[4..], U64_MAX) == Some(size)
    ensures ParseFields([name, mtime, len], None, None) == Some(Identity(stamp.0, stamp.1, size))
  {
    assert [name, mtime, len][1..] == [mtime, len] && [mtime, len][1..] == [len] && [len][1..] == [];
    assert ParseFields([len], Some(stamp), None) == ParseFields([], Some(stamp), Some(size));
    assert ParseFields([mtime, len], None, None) == ParseFields([len], Some(stamp), None);
  }

  /** Two different saves never render alike. */
  lemma RenderIsInjective(a: Identity, b: Identity)
    requires Representable(a) && Representable(b) && RenderIdentity(a) == RenderIdentity(b)
    ensures a == b
  {
    ParseOfRender(a);
    ParseOfRender(b);
  }
}
