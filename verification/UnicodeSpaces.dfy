/**
 Replacing Unicode spaces before parsing (extension/autocomplete/autocomplete_extension.cpp).

 `StripUnicodeSpaces` is a machine of labelled loops that look ahead and jump. Here it is compared
 with a scan that looks at every byte once and keeps track of what the byte is part of.
 */
module UnicodeSpaces {
  import opened Wrappers
  import opened Sequences

  type Byte = b: int | 0 <= b < 0x100

  const SPACE: Byte := 0x20
  const QUOTE: Byte := 0x27
  const DOUBLE_QUOTE: Byte := 0x22
  const DASH: Byte := 0x2D
  const DOLLAR: Byte := 0x24

  datatype UnicodeSpace = UnicodeSpace(pos: nat, bytes: nat)

  /** How many bytes the Unicode space at `k` has; 0 if there is none. */
  function SpaceLength(q: seq<Byte>, k: nat): (n: nat)
    ensures n > 0 ==> k + n <= |q| && 2 <= n <= 3
  {
    if k + 1 < |q| && q[k] == 0xC2 && q[k + 1] == 0xA0 then 2
    else if k + 2 >= |q| then 0
    else if q[k] == 0xE2 && q[k + 1] == 0x80 && (0x80 <= q[k + 2] <= 0x8B || q[k + 2] == 0xAF) then 3
    else if q[k] == 0xE2 && q[k + 1] == 0x81 && (q[k + 2] == 0x9F || q[k + 2] == 0xA0) then 3
    else if q[k] == 0xE3 && q[k + 1] == 0x80 && q[k + 2] == 0x80 then 3
    else if q[k] == 0xEF && q[k + 1] == 0xBB && q[k + 2] == 0xBF then 3
    else 0
  }

  /** The spaces beyond ASCII that count, among them zero-width ones and the byte order mark. */
  predicate IsUnicodeSpace(codePoint: nat) {
    || codePoint == 0x00A0 || 0x2000 <= codePoint <= 0x200B || codePoint == 0x202F
    || codePoint == 0x205F || codePoint == 0x2060 || codePoint == 0x3000 || codePoint == 0xFEFF
  }

  /** The UTF-8 encoding of a code point in two or three bytes. */
  function Utf8(codePoint: nat): seq<Byte>
    requires 0x80 <= codePoint < 0x1_0000
  {
    if codePoint < 0x800 then [0xC0 + codePoint / 0x40, 0x80 + codePoint % 0x40]
    else [0xE0 + codePoint / 0x1000, 0x80 + codePoint / 0x40 % 0x40, 0x80 + codePoint % 0x40]
  }

  /** The encoding of such a space stands at `k`. */
  predicate IsSpaceAt(q: seq<Byte>, k: nat, codePoint: nat) {
    && IsUnicodeSpace(codePoint)
    && k + |Utf8(codePoint)| <= |q| && forall i | 0 <= i < |Utf8(codePoint)| :: q[k + i] == Utf8(codePoint)[i]
  }

  /** The byte patterns stand for the encodings of just these spaces. */
  lemma SpacesAreEncoded(q: seq<Byte>, k: nat)
    ensures SpaceLength(q, k) > 0 <==> exists codePoint: nat :: IsSpaceAt(q, k, codePoint)
    ensures forall codePoint: nat | IsSpaceAt(q, k, codePoint) :: SpaceLength(q, k) == |Utf8(codePoint)|
  {
    if SpaceLength(q, k) > 0 {
      var codePoint := SpaceDecoded(q, k);
    }
    forall codePoint: nat | IsSpaceAt(q, k, codePoint)
      ensures SpaceLength(q, k) == |Utf8(codePoint)|
    {
      SpaceFound(q, k, codePoint);
    }
  }

  lemma SpaceDecoded(q: seq<Byte>, k: nat) returns (codePoint: nat)
    requires SpaceLength(q, k) > 0
    ensures IsSpaceAt(q, k, codePoint)
  {
    if SpaceLength(q, k) == 2 {
      codePoint := 0xA0;
    } else {
      var first: int, second: int, third: int := q[k], q[k + 1], q[k + 2];
      codePoint := (first - 0xE0) * 0x1000 + (second - 0x80) * 0x40 + (third - 0x80);
    }
  }

  lemma SpaceFound(q: seq<Byte>, k: nat, codePoint: nat)
    requires IsSpaceAt(q, k, codePoint)
    ensures SpaceLength(q, k) == |Utf8(codePoint)|
  {
    var bytes := Utf8(codePoint);
    assert q[k + 0] == bytes[0] && q[k + 1] == bytes[1];
    if codePoint >= 0x800 {
      assert q[k + 2] == bytes[2];
    }
  }

  predicate IsTagFirst(b: Byte) {
    0x41 <= b <= 0x5A || 0x61 <= b <= 0x7A || b == 0x5F || b >= 0x80
  }

  predicate IsTagSubsequent(b: Byte) {
    IsTagFirst(b) || 0x30 <= b <= 0x39
  }

  predicate IsNewline(b: Byte) {
    b == 0x0A || b == 0x0D
  }

  // ---------------------------------------------------------------- dollar quotes

  /** A dollar-quoted string may start at `k`. */
  predicate StartsDollar(q: seq<Byte>, k: nat) {
    k + 2 < |q| && q[k] == DOLLAR && (q[k + 1] == DOLLAR || IsTagFirst(q[k + 1]))
  }

  /** The first byte from `p` on that is no part of a tag. */
  function TagStop(q: seq<Byte>, p: nat): (r: Option<nat>)
    ensures r.Some? ==> p <= r.value && r.value + 2 < |q| && (q[r.value] == DOLLAR || !IsTagSubsequent(q[r.value]))
    decreases |q| - p
  {
    if p + 2 >= |q| then None
    else if q[p] == DOLLAR || !IsTagSubsequent(q[p]) then Some(p)
    else TagStop(q, p + 1)
  }

  predicate ClosesAt(q: seq<Byte>, p: nat, tag: seq<Byte>) {
    p + |tag| + 1 < |q| && q[p] == DOLLAR && q[p + 1..p + 1 + |tag|] == tag && q[p + |tag| + 1] == DOLLAR
  }

  /** The last '$' of the closing marker. */
  function ClosingDollar(q: seq<Byte>, p: nat, tag: seq<Byte>): (r: Option<nat>)
    ensures r.Some? ==> p + |tag| < r.value < |q| && q[r.value] == DOLLAR
    decreases |q| - p
  {
    if p + 2 >= |q| then None
    else if ClosesAt(q, p, tag) then Some(p + |tag| + 1)
    else ClosingDollar(q, p + 1, tag)
  }

  /** Where regular text goes on after the '$' at `k`, if it does. */
  function AfterDollar(q: seq<Byte>, k: nat): (r: Option<nat>)
    requires StartsDollar(q, k)
    ensures r.Some? ==> k + 1 < r.value < |q| && (q[r.value] == DOLLAR || !IsTagSubsequent(q[r.value]))
  {
    match TagStop(q, k + 1)
    case None => None
    case Some(p) => if q[p] == DOLLAR then ClosingDollar(q, p, q[k + 1..p]) else Some(p)
  }

  // ---------------------------------------------------------------- the scan

  /**
   What a byte is part of. `Skipped` reaches up to its end; it is what the scan takes for a dollar-quoted
   string (`quoted`), or what looked like the tag of one but is ended by no '$'.
   */
  datatype Region = Outside | Quoted(quote: Byte) | Comment | Skipped(end: nat, quoted: bool)

  /** From `k` on everything up to `end` is skipped. */
  function SkipTo(k: nat, end: nat, quoted: bool): Region {
    if k < end then Skipped(end, quoted) else Outside
  }

  /** A '$' ends the tag that starts with the '$' at `k`. */
  predicate IsMarker(q: seq<Byte>, k: nat) {
    TagStop(q, k + 1).Some? && q[TagStop(q, k + 1).value] == DOLLAR
  }

  /** What the byte after `k` is part of. A doubled quote leaves the quotes and enters them again. */
  function Next(q: seq<Byte>, k: nat, r: Region): Region
    requires k < |q|
  {
    match r
    case Outside =>
      if q[k] == QUOTE || q[k] == DOUBLE_QUOTE then Quoted(q[k])
      else if q[k] == DASH && k + 1 < |q| && q[k + 1] == DASH then Comment
      else if StartsDollar(q, k) then
        SkipTo(k + 1, match AfterDollar(q, k) case None => |q| case Some(p) => p, IsMarker(q, k))
      else Outside
    case Quoted(c) => if q[k] == c then Outside else r
    case Comment => if IsNewline(q[k]) then Outside else r
    case Skipped(end, quoted) => SkipTo(k + 1, end, quoted)
  }

  /** The Unicode spaces that are found from `k` on; the last two bytes are not looked at. */
  function Spaces(q: seq<Byte>, k: nat, r: Region): seq<UnicodeSpace>
    decreases |q| - k
  {
    if k + 2 >= |q| then []
    else
      (if r == Outside && SpaceLength(q, k) > 0 then [UnicodeSpace(k, SpaceLength(q, k))] else [])
      + Spaces(q, k + 1, Next(q, k, r))
  }

  /** The bytes from `k` on, with each of these spaces replaced by a plain one. */
  function Cleaned(q: seq<Byte>, k: nat, r: Region): seq<Byte>
    requires k <= |q|
    decreases |q| - k
  {
    if k + 2 >= |q| then q[k..]
    else if r == Outside && SpaceLength(q, k) > 0 then [SPACE] + Cleaned(q, k + SpaceLength(q, k), Outside)
    else [q[k]] + Cleaned(q, k + 1, Next(q, k, r))
  }

  /** A dollar-quoted string is skipped as a whole. */
  lemma {:induction false} SkipIsWhole(q: seq<Byte>, k: nat, end: nat, quoted: bool)
    requires k <= end <= |q|
    ensures Spaces(q, k, SkipTo(k, end, quoted)) == Spaces(q, end, Outside)
    decreases end - k
  {
    if k == end || k + 2 >= |q| {
    } else {
      SkipIsWhole(q, k + 1, end, quoted);
      SkipsOne(q, k, end, quoted);
    }
  }

  /** And it is kept as a whole. */
  lemma {:induction false} SkipIsKept(q: seq<Byte>, k: nat, end: nat, quoted: bool)
    requires k <= end <= |q|
    ensures Cleaned(q, k, SkipTo(k, end, quoted)) == q[k..end] + Cleaned(q, end, Outside)
    decreases end - k
  {
    hide Next, SpaceLength;
    if k == end {
      assert q[k..end] == [];
    } else if k + 2 < |q| {
      SkipIsKept(q, k + 1, end, quoted);
      SkipsOne(q, k, end, quoted);
      ConcatAssociates([q[k]], q[k + 1..end], Cleaned(q, end, Outside));
      assert q[k..end] == [q[k]] + q[k + 1..end];
    } else {
      assert q[k..] == q[k..end] + q[end..];
    }
  }

  lemma SkipsOne(q: seq<Byte>, k: nat, end: nat, quoted: bool)
    requires k < end <= |q|
    ensures SkipTo(k, end, quoted) == Skipped(end, quoted) && Next(q, k, Skipped(end, quoted)) == SkipTo(k + 1, end, quoted)
  {
  }

  lemma DollarSkips(q: seq<Byte>, k: nat, end: nat)
    requires StartsDollar(q, k) && end == match AfterDollar(q, k) case None => |q| case Some(p) => p
    ensures SpaceLength(q, k) == 0 && Next(q, k, Outside) == SkipTo(k + 1, end, IsMarker(q, k))
  {
  }

  lemma DollarIsWhole(q: seq<Byte>, k: nat)
    requires StartsDollar(q, k)
    ensures var end := match AfterDollar(q, k) case None => |q| case Some(p) => p;
            && Spaces(q, k, Outside) == Spaces(q, end, Outside)
            && Cleaned(q, k, Outside) == q[k..end] + Cleaned(q, end, Outside)
  {
    var end := match AfterDollar(q, k) case None => |q| case Some(p) => p;
    DollarSkips(q, k, end);
    SkipIsWhole(q, k + 1, end, IsMarker(q, k));
    SkipIsKept(q, k + 1, end, IsMarker(q, k));
    hide AfterDollar, SpaceLength, Next, SkipTo, IsMarker;
    assert q[k..end] == [q[k]] + q[k + 1..end];
    ConcatAssociates([q[k]], q[k + 1..end], Cleaned(q, end, Outside));
  }

  // ---------------------------------------------------------------- what the spaces are

  /** Inside a space there is nothing that starts another one, or quotes, or a comment. */
  lemma InsideSpace(q: seq<Byte>, k: nat)
    requires SpaceLength(q, k) > 0 && k + 2 < |q|
    ensures Next(q, k, Outside) == Outside
    ensures Spaces(q, k, Outside) == [UnicodeSpace(k, SpaceLength(q, k))] + Spaces(q, k + SpaceLength(q, k), Outside)
  {
    assert Spaces(q, k + 1, Outside) == Spaces(q, k + 2, Outside);
    if SpaceLength(q, k) == 3 {
      assert Spaces(q, k + 2, Outside) == Spaces(q, k + 3, Outside);
    }
  }

  /** The spaces are in strictly increasing order and disjoint, and each is one. */
  lemma {:induction false} SpacesAreDisjoint(q: seq<Byte>, k: nat, r: Region, i: nat)
    requires i < |Spaces(q, k, r)|
    ensures var s := Spaces(q, k, r);
            && k <= s[i].pos && s[i].bytes == SpaceLength(q, s[i].pos) > 0
            && (i + 1 < |s| ==> s[i].pos + s[i].bytes <= s[i + 1].pos)
    decreases |q| - k
  {
    hide SpaceLength, Next;
    if r == Outside && SpaceLength(q, k) > 0 {
      InsideSpace(q, k);
      var n := SpaceLength(q, k);
      var rest := Spaces(q, k + n, Outside);
      if i > 0 {
        SpacesAreDisjoint(q, k + n, Outside, i - 1);
      } else if rest != [] {
        SpacesAreDisjoint(q, k + n, Outside, 0);
      }
    } else {
      SpacesAreDisjoint(q, k + 1, Next(q, k, r), i);
    }
  }

  /** What the byte at `k` is part of, from the beginning of the text. */
  function RegionAt(q: seq<Byte>, k: nat): Region
    requires k <= |q|
  {
    if k == 0 then Outside else Next(q, k - 1, RegionAt(q, k - 1))
  }

  /** A Unicode space is found exactly where the scan is outside, and not in the last two bytes. */
  lemma {:induction false} SpacesAreOutside(q: seq<Byte>, k: nat, p: nat)
    requires k <= p < |q|
    ensures UnicodeSpace(p, SpaceLength(q, p)) in Spaces(q, k, RegionAt(q, k))
            <==> SpaceLength(q, p) > 0 && RegionAt(q, p) == Outside && p + 2 < |q|
    decreases |q| - k
  {
    hide SpaceLength, Next;
    if k + 2 >= |q| {
    } else {
      var r := RegionAt(q, k);
      var rest := Spaces(q, k + 1, Next(q, k, r));
      if k < p {
        SpacesAreOutside(q, k + 1, p);
      } else if UnicodeSpace(p, SpaceLength(q, p)) in rest {
        var i :| 0 <= i < |rest| && rest[i] == UnicodeSpace(p, SpaceLength(q, p));
        SpacesAreDisjoint(q, k + 1, Next(q, k, r), i);
      }
    }
  }

  // ---------------------------------------------------------------- tags that are none

  /** From the '$' at `s` up to and including `p` there are tag characters only. */
  ghost predicate TagRun(q: seq<Byte>, s: nat, p: nat) {
    s < p < |q| && StartsDollar(q, s) && forall k | s < k <= p :: q[k] != DOLLAR && IsTagSubsequent(q[k])
  }

  /** What ends the tag characters from `p` on is no '$'. */
  predicate NoDollarEnds(q: seq<Byte>, p: nat) {
    TagStop(q, p).Some? ==> q[TagStop(q, p).value] != DOLLAR
  }

  /** The byte at `p` follows a '$' and only tag characters, which no '$' ends. */
  ghost predicate InMistakenTag(q: seq<Byte>, p: nat)
    requires p < |q|
  {
    NoDollarEnds(q, p) && exists s :: 0 <= s < p && RegionAt(q, s) == Outside && TagRun(q, s, p)
  }

  /** Tag characters lead to the same end. */
  lemma {:induction false} TagStopOfRun(q: seq<Byte>, a: nat, p: nat)
    requires a <= p && p + 2 < |q| && forall k | a <= k < p :: q[k] != DOLLAR && IsTagSubsequent(q[k])
    ensures TagStop(q, a) == TagStop(q, p)
    decreases p - a
  {
    if a == p {
    } else {
      TagStopOfRun(q, a + 1, p);
    }
  }

  /** Before the end of a tag there are only tag characters. */
  lemma {:induction false} TagBytes(q: seq<Byte>, a: nat, k: nat)
    requires a <= k && k + 2 < |q| && (TagStop(q, a).Some? ==> k < TagStop(q, a).value)
    ensures q[k] != DOLLAR && IsTagSubsequent(q[k])
    decreases k - a
  {
    if a == k {
    } else {
      TagBytes(q, a + 1, k);
    }
  }

  /** What is skipped stays skipped up to its end. */
  lemma {:induction false} SkippedUntil(q: seq<Byte>, s: nat, k: nat)
    requires s < k < |q| && RegionAt(q, s + 1).Skipped? && k < RegionAt(q, s + 1).end
    ensures RegionAt(q, k) == RegionAt(q, s + 1)
    decreases k - s
  {
    hide AfterDollar, IsMarker;
    if k == s + 1 {
    } else {
      SkippedUntil(q, s, k - 1);
    }
  }

  /** Where the skipped stretch began: at a '$' outside. */
  lemma {:induction false} SkippedFrom(q: seq<Byte>, p: nat) returns (s: nat)
    requires p < |q| && RegionAt(q, p).Skipped?
    ensures s < p && RegionAt(q, s) == Outside && StartsDollar(q, s) && p < RegionAt(q, p).end
    ensures RegionAt(q, p) == Skipped(match AfterDollar(q, s) case None => |q| case Some(e) => e, IsMarker(q, s))
    decreases p
  {
    hide AfterDollar, IsMarker;
    if RegionAt(q, p - 1) == Outside {
      s := p - 1;
    } else {
      s := SkippedFrom(q, p - 1);
    }
  }

  /** Where the scan takes a byte for part of a tag that is none, the text says so. */
  lemma MistakenTagIs(q: seq<Byte>, p: nat)
    requires p + 2 < |q|
    ensures (RegionAt(q, p).Skipped? && !RegionAt(q, p).quoted) <==> InMistakenTag(q, p)
  {
    hide RegionAt;
    if RegionAt(q, p).Skipped? && !RegionAt(q, p).quoted {
      var s := SkippedFrom(q, p);
      forall k | s < k <= p
        ensures q[k] != DOLLAR && IsTagSubsequent(q[k])
      {
        TagBytes(q, s + 1, k);
      }
      TagStopOfRun(q, s + 1, p);
    } else if InMistakenTag(q, p) {
      var s :| 0 <= s < p && RegionAt(q, s) == Outside && TagRun(q, s, p);
      TagStopOfRun(q, s + 1, p);
      MistakenTagSkips(q, s, p);
    }
  }

  lemma MistakenTagSkips(q: seq<Byte>, s: nat, p: nat)
    requires p + 2 < |q| && TagRun(q, s, p) && RegionAt(q, s) == Outside
    requires NoDollarEnds(q, p) && TagStop(q, s + 1) == TagStop(q, p)
    ensures RegionAt(q, p).Skipped? && !RegionAt(q, p).quoted
  {
    assert TagStop(q, p) == TagStop(q, p + 1);
    var end := match AfterDollar(q, s) case None => |q| case Some(e) => e;
    assert end > p && RegionAt(q, s + 1) == Skipped(end, false);
    SkippedUntil(q, s, p);
  }

  /** Quotes, `--` comments, and what the scan takes for dollar-quoted strings. */
  predicate IsProtected(r: Region) {
    r.Quoted? || r.Comment? || (r.Skipped? && r.quoted)
  }

  /**
   Exactly the Unicode spaces are found that are not protected, not part of what only looks like a tag,
   and not in the last two bytes.
   */
  lemma SpacesAreFound(q: seq<Byte>, p: nat)
    requires p < |q|
    ensures UnicodeSpace(p, SpaceLength(q, p)) in Spaces(q, 0, Outside)
            <==> SpaceLength(q, p) > 0 && p + 2 < |q| && !IsProtected(RegionAt(q, p)) && !InMistakenTag(q, p)
  {
    hide Spaces, SpaceLength, InMistakenTag;
    assert RegionAt(q, 0) == Outside;
    hide RegionAt;
    SpacesAreOutside(q, 0, p);
    if p + 2 < |q| {
      MistakenTagIs(q, p);
    }
  }

  // ---------------------------------------------------------------- spaces that are missed, or should have been

  /** A text that is just a no-break space: the space stands outside quotes, and is not found. */
  lemma LastSpaceIsMissed()
    ensures var q: seq<Byte> := [0xC2, 0xA0];
            SpaceLength(q, 0) == 2 && RegionAt(q, 0) == Outside && Spaces(q, 0, Outside) == [] && Cleaned(q, 0, Outside) == q
  {
  }

  /** `$a`, a no-break space, and ` +1`: the space is taken for a part of the tag, although no '$' ends the tag. */
  lemma MistakenTagHidesSpace()
    ensures var q: seq<Byte> := [0x24, 0x61, 0xC2, 0xA0, 0x20, 0x2B, 0x31];
            SpaceLength(q, 2) == 2 && InMistakenTag(q, 2) && Spaces(q, 0, Outside) == []
  {
    var q: seq<Byte> := [0x24, 0x61, 0xC2, 0xA0, 0x20, 0x2B, 0x31];
    assert TagStop(q, 4) == TagStop(q, 3) == TagStop(q, 2) == TagStop(q, 1) == Some(4);
    assert RegionAt(q, 0) == Outside && TagRun(q, 0, 2);
    NothingAt(q);
    DollarIsWhole(q, 0);
  }

  lemma NothingAt(q: seq<Byte>)
    requires |q| == 7 && q[4..] == [0x20, 0x2B, 0x31]
    ensures Spaces(q, 4, Outside) == []
  {
    assert q[4] == q[4..][0] && q[5] == q[4..][1];
    assert Spaces(q, 5, Outside) == [];
  }

  /** A block comment is no protection: the space in `/* */` is replaced, and an apostrophe in one hides what follows. */
  lemma BlockCommentsAreRegular()
    ensures Spaces([0x2F, 0x2A, 0xC2, 0xA0, 0x2A, 0x2F], 0, Outside) == [UnicodeSpace(2, 2)]
    ensures Spaces([0x2F, 0x2A, 0x27, 0x2A, 0x2F, 0xC2, 0xA0, 0x20], 0, Outside) == []
  {
    hide Spaces;
    var a: seq<Byte> := [0x2F, 0x2A, 0xC2, 0xA0, 0x2A, 0x2F];
    PlainByte(a, 0, Outside);
    PlainByte(a, 1, Outside);
    InsideSpace(a, 2);
    NoSpaces(a, 4, Outside);
    var b: seq<Byte> := [0x2F, 0x2A, 0x27, 0x2A, 0x2F, 0xC2, 0xA0, 0x20];
    PlainByte(b, 0, Outside);
    PlainByte(b, 1, Outside);
    PlainByte(b, 2, Outside);
    PlainByte(b, 3, Quoted(QUOTE));
    PlainByte(b, 4, Quoted(QUOTE));
    PlainByte(b, 5, Quoted(QUOTE));
    NoSpaces(b, 6, Quoted(QUOTE));
  }

  /** A byte where no space is found. */
  lemma PlainByte(q: seq<Byte>, k: nat, r: Region)
    requires k + 2 < |q| && (r != Outside || SpaceLength(q, k) == 0)
    ensures Spaces(q, k, r) == Spaces(q, k + 1, Next(q, k, r))
  {
    hide Next;
  }

  /** `$$$$`, a space, a no-break space, two spaces: after an empty dollar-quoted string the scan takes all for quoted. */
  lemma EmptyDollarStringHidesSpace()
    ensures var q: seq<Byte> := [0x24, 0x24, 0x24, 0x24, 0x20, 0xC2, 0xA0, 0x20, 0x20];
            SpaceLength(q, 5) == 2 && Spaces(q, 0, Outside) == []
  {
    hide Spaces, Cleaned, Next;
    var q: seq<Byte> := [0x24, 0x24, 0x24, 0x24, 0x20, 0xC2, 0xA0, 0x20, 0x20];
    assert q[1..1] == [] && q[2..2] == [] && q[3..3] == [];
    assert TagStop(q, 1) == Some(1) && ClosesAt(q, 1, []) && AfterDollar(q, 0) == Some(2);
    DollarIsWhole(q, 0);
    NeverCloses(q);
    assert TagStop(q, 3) == Some(3) && AfterDollar(q, 2) == None;
    DollarIsWhole(q, 2);
    NoSpaces(q, 9, Outside);
  }

  lemma NeverCloses(q: seq<Byte>)
    requires |q| == 9 && q[3] == DOLLAR && forall k | 4 <= k < 9 :: q[k] != DOLLAR
    ensures ClosingDollar(q, 3, []) == None
  {
    assert ClosingDollar(q, 7, []) == None;
    assert ClosingDollar(q, 6, []) == None;
    assert ClosingDollar(q, 5, []) == None;
    assert ClosingDollar(q, 4, []) == None;
  }

  // ---------------------------------------------------------------- a second pass

  lemma {:induction false} CleaningShortens(q: seq<Byte>, k: nat, r: Region)
    requires k <= |q|
    ensures |Cleaned(q, k, r)| <= |q| - k
    ensures Cleaned(q, k, r) == [] <==> k == |q|
    decreases |q| - k
  {
    hide Next;
    if k + 2 >= |q| {
    } else {
      if r == Outside && SpaceLength(q, k) > 0 {
        CleaningShortens(q, k + SpaceLength(q, k), Outside);
      } else {
        CleaningShortens(q, k + 1, Next(q, k, r));
      }
    }
  }

  /** A space is found at `k`. */
  predicate FoundAt(q: seq<Byte>, k: nat) {
    k + 2 < |q| && SpaceLength(q, k) > 0
  }

  /** The first byte of the cleaned text is that of the text, or a plain space. */
  lemma CleanedStart(q: seq<Byte>, k: nat, r: Region)
    requires k < |q|
    ensures var c := Cleaned(q, k, r); c != [] && (c[0] == q[k] || (c[0] == SPACE && r == Outside && FoundAt(q, k)))
  {
    hide SpaceLength, Next;
  }

  /** A byte that is kept starts no Unicode space in the cleaned text, unless it started one before. */
  lemma NoNewSpace(q: seq<Byte>, k: nat, c: seq<Byte>, j: nat)
    requires k < |q| && j <= |c| && c[j..] == [q[k]] + Cleaned(q, k + 1, Next(q, k, Outside))
    requires !FoundAt(q, k)
    ensures !FoundAt(c, j)
  {
    hide Next;
    var r1 := Next(q, k, Outside);
    var rest := Cleaned(q, k + 1, r1);
    CleaningShortens(q, k + 1, r1);
    assert c[j] == q[k];
    if j + 2 < |c| {
      assert c[j + 1] == rest[0] && c[j + 2] == rest[1];
      CleanedStart(q, k + 1, r1);
      if c[j + 1] == q[k + 1] && !FoundAt(q, k + 1) {
        assert rest == if k + 3 >= |q| then q[k + 1..] else [q[k + 1]] + Cleaned(q, k + 2, Next(q, k + 1, r1));
        CleanedStart(q, k + 2, Next(q, k + 1, r1));
      }
    }
  }

  /** In a text that has been cleaned, from the matching place on, there is nothing left to replace. */
  lemma {:induction false} NothingLeft(q: seq<Byte>, k: nat, r: Region, c: seq<Byte>, j: nat)
    requires k <= |q| && j <= |c| && c[j..] == Cleaned(q, k, r) && !r.Skipped?
    ensures Spaces(c, j, r) == []
    decreases |q| - k, 1
  {
    hide SpaceLength, AfterDollar, Next, StartsDollar;
    CleaningShortens(q, k, r);
    if j + 2 >= |c| {
    } else {
      assert c[j] == c[j..][0] && c[j + 1..] == c[j..][1..];
      if r == Outside && SpaceLength(q, k) > 0 {
        PlainSpace(c, j);
        NothingLeft(q, k + SpaceLength(q, k), Outside, c, j + 1);
      } else if r == Outside && StartsDollar(q, k) {
        DollarLeavesNothing(q, k, c, j);
      } else {
        SameNext(q, k, r, c, j);
        if r == Outside {
          NoNewSpace(q, k, c, j);
        }
        NothingLeft(q, k + 1, Next(q, k, r), c, j + 1);
      }
    }
  }

  lemma {:induction false} DollarLeavesNothing(q: seq<Byte>, k: nat, c: seq<Byte>, j: nat)
    requires StartsDollar(q, k) && j + 2 < |c| && c[j..] == Cleaned(q, k, Outside)
    ensures Spaces(c, j, Outside) == []
    decreases |q| - k, 0
  {
    hide AfterDollar, Next, SpaceLength;
    DollarIsWhole(q, k);
    SameDollar(q, k, c, j);
    DollarIsWhole(c, j);
    if AfterDollar(c, j).Some? {
      var n := AfterDollar(q, k).value - k;
      assert c[j + n..] == c[j..][n..];
      NothingLeft(q, k + n, Outside, c, j + n);
    }
  }

  /** From `x` in one text and `y` in the other, the next `n` bytes are alike, and there are no more of them in `c`. */
  ghost predicate Alike(q: seq<Byte>, x: nat, c: seq<Byte>, y: nat, n: nat) {
    x + n <= |q| && y + n <= |c| && |c| - y <= |q| - x && c[y..y + n] == q[x..x + n]
  }

  lemma AlikePart(q: seq<Byte>, x: nat, c: seq<Byte>, y: nat, n: nat, d: nat, m: nat)
    requires Alike(q, x, c, y, n) && d + m <= n
    ensures Alike(q, x + d, c, y + d, m)
    ensures m > 0 ==> c[y + d] == q[x + d]
  {
    SliceOfSlice(c, y, y + n, d, d + m);
    SliceOfSlice(q, x, x + n, d, d + m);
    assert m > 0 ==> c[y + d] == c[y..y + n][d] && q[x + d] == q[x..x + n][d];
  }

  /** Cleaning does not move the end of a dollar-quoted string, but may bring it too close to the end of the text. */
  lemma SameDollar(q: seq<Byte>, k: nat, c: seq<Byte>, j: nat)
    requires StartsDollar(q, k) && j + 2 < |c| && c[j..] == Cleaned(q, k, Outside)
    ensures StartsDollar(c, j)
    ensures AfterDollar(c, j).Some? ==> AfterDollar(q, k).Some? && AfterDollar(c, j).value - j == AfterDollar(q, k).value - k
  {
    var n: nat := (match AfterDollar(q, k) case None => |q| case Some(p) => p + 1) - k;
    hide Next, SpaceLength, Cleaned, Alike, StartsDollar, AfterDollar;
    AlikeToEnd(q, k, c, j, n);
    SameStart(q, k, c, j, n);
    SameEnd(q, k, c, j, n);
  }

  lemma SameEnd(q: seq<Byte>, k: nat, c: seq<Byte>, j: nat, n: nat)
    requires StartsDollar(q, k) && StartsDollar(c, j) && Alike(q, k, c, j, n) && n >= 3
    requires match AfterDollar(q, k) case None => |c| - j == |q| - k == n case Some(p) => p + 1 - k == n
    ensures AfterDollar(c, j).Some? ==> AfterDollar(q, k).Some? && AfterDollar(c, j).value - j == AfterDollar(q, k).value - k
  {
    hide ClosesAt, Alike, StartsDollar, IsTagSubsequent, TagStop, ClosingDollar;
    SameTag(q, k, c, j, n, 1);
    TagStopAlike(q, k + 1, c, j + 1, n - 1);
    if TagStop(c, j + 1).Some? {
      var m := TagStop(q, k + 1).value - k;
      SameTag(q, k, c, j, n, m);
      if q[k + m] == DOLLAR {
        ClosingAlike(q, k + m, c, j + m, q[k + 1..k + m], n - m);
      }
    }
  }

  lemma SameStart(q: seq<Byte>, k: nat, c: seq<Byte>, j: nat, n: nat)
    requires StartsDollar(q, k) && Alike(q, k, c, j, n) && n >= 3
    ensures StartsDollar(c, j)
  {
    AlikePart(q, k, c, j, n, 0, 1);
    AlikePart(q, k, c, j, n, 1, 1);
  }

  lemma SameTag(q: seq<Byte>, k: nat, c: seq<Byte>, j: nat, n: nat, m: nat)
    requires Alike(q, k, c, j, n) && 1 <= m < n
    ensures Alike(q, k + m, c, j + m, n - m)
    ensures c[j + m] == q[k + m] && c[j + 1..j + m] == q[k + 1..k + m]
  {
    AlikePart(q, k, c, j, n, m, n - m);
    AlikePart(q, k, c, j, n, 1, m - 1);
  }

  lemma AlikeToEnd(q: seq<Byte>, k: nat, c: seq<Byte>, j: nat, n: nat)
    requires StartsDollar(q, k) && j <= |c| && c[j..] == Cleaned(q, k, Outside)
    requires n == (match AfterDollar(q, k) case None => |q| case Some(p) => p + 1) - k
    ensures Alike(q, k, c, j, n) && n >= 3
    ensures AfterDollar(q, k) == None ==> |c| - j == |q| - k == n
  {
    DollarIsWhole(q, k);
    CleaningShortens(q, k, Outside);
    var end: nat := match AfterDollar(q, k) case None => |q| case Some(p) => p;
    var rest := Cleaned(q, end, Outside);
    assert k + 1 < end && (end < |q| ==> q[end] == DOLLAR || !IsTagSubsequent(q[end]));
    hide AfterDollar, Cleaned, StartsDollar;
    KeptPrefix(q, k, end, c, j, rest);
    if end < |q| {
      CleanedStart(q, end, Outside);
      NoTagIsNoSpace(q, end);
    } else {
      EndIsKept(q, end, Outside);
    }
  }

  lemma KeptPrefix(q: seq<Byte>, k: nat, end: nat, c: seq<Byte>, j: nat, rest: seq<Byte>)
    requires k <= end <= |q| && j <= |c| && c[j..] == q[k..end] + rest
    ensures |c| - j == end - k + |rest| && c[j..j + (end - k)] == q[k..end]
    ensures end < |q| && rest != [] && rest[0] == q[end] ==> c[j..j + (end - k) + 1] == q[k..end + 1]
  {
    assert c[j..j + (end - k)] == c[j..][..end - k];
    if end < |q| && rest != [] && rest[0] == q[end] {
      assert c[j..j + (end - k) + 1] == c[j..][..end - k + 1];
      assert q[k..end + 1] == q[k..end] + [rest[0]];
    }
  }

  /** What ends a tag starts no space. */
  lemma NoTagIsNoSpace(q: seq<Byte>, k: nat)
    requires k < |q| && (q[k] == DOLLAR || !IsTagSubsequent(q[k]))
    ensures SpaceLength(q, k) == 0
  {
  }

  /** Among bytes that are alike, a tag ends in the same place, if the text goes on long enough. */
  lemma {:induction false} TagStopAlike(q: seq<Byte>, x: nat, c: seq<Byte>, y: nat, n: nat)
    requires Alike(q, x, c, y, n)
    requires match TagStop(q, x) case Some(p) => p - x < n case None => |c| - y == |q| - x == n
    ensures TagStop(c, y).Some? ==> TagStop(q, x).Some? && TagStop(c, y).value - y == TagStop(q, x).value - x
    decreases n
  {
    if y + 2 >= |c| {
    } else {
      AlikePart(q, x, c, y, n, 0, n);
      if TagStop(q, x) != Some(x) {
        AlikePart(q, x, c, y, n, 1, n - 1);
        TagStopAlike(q, x + 1, c, y + 1, n - 1);
      }
    }
  }

  /** And so does a dollar-quoted string. */
  lemma {:induction false} ClosingAlike(q: seq<Byte>, x: nat, c: seq<Byte>, y: nat, tag: seq<Byte>, n: nat)
    requires Alike(q, x, c, y, n)
    requires match ClosingDollar(q, x, tag) case Some(p) => p - x < n case None => |c| - y == |q| - x == n
    ensures ClosingDollar(c, y, tag).Some? ==>
              ClosingDollar(q, x, tag).Some? && ClosingDollar(c, y, tag).value - y == ClosingDollar(q, x, tag).value - x
    decreases n
  {
    if y + 2 >= |c| {
    } else {
      ClosesAlike(q, x, c, y, tag, n);
      if !ClosesAt(q, x, tag) {
        AlikePart(q, x, c, y, n, 1, n - 1);
        ClosingAlike(q, x + 1, c, y + 1, tag, n - 1);
      }
    }
  }

  lemma ClosesAlike(q: seq<Byte>, x: nat, c: seq<Byte>, y: nat, tag: seq<Byte>, n: nat)
    requires Alike(q, x, c, y, n) && n >= 1
    requires |tag| + 2 <= n || |c| - y == |q| - x == n
    ensures ClosesAt(c, y, tag) <==> ClosesAt(q, x, tag)
  {
    if |tag| + 2 <= n {
      AlikePart(q, x, c, y, n, 0, n);
      AlikePart(q, x, c, y, n, 1, |tag|);
      AlikePart(q, x, c, y, n, |tag| + 1, 1);
    }
  }

  lemma PlainSpace(c: seq<Byte>, j: nat)
    requires j < |c| && c[j] == SPACE
    ensures SpaceLength(c, j) == 0 && Next(c, j, Outside) == Outside
  {
  }

  /** A byte that is kept leads to the same region in the cleaned text. */
  lemma SameNext(q: seq<Byte>, k: nat, r: Region, c: seq<Byte>, j: nat)
    requires k < |q| && j <= |c| && c[j..] == [q[k]] + Cleaned(q, k + 1, Next(q, k, r))
    requires !r.Skipped? && !(r == Outside && StartsDollar(q, k))
    ensures Next(c, j, r) == Next(q, k, r) && !Next(q, k, r).Skipped?
    ensures r == Outside ==> !StartsDollar(c, j)
  {
    hide AfterDollar;
    assert c[j] == q[k];
    CleaningShortens(q, k + 1, Next(q, k, r));
    if k + 1 < |q| {
      CleanedStart(q, k + 1, Next(q, k, r));
      assert c[j + 1] == Cleaned(q, k + 1, Next(q, k, r))[0];
    }
  }

  /** A second pass over a cleaned text changes nothing. */
  lemma SecondPassFindsNothing(q: seq<Byte>)
    ensures Spaces(Cleaned(q, 0, Outside), 0, Outside) == []
  {
    var c := Cleaned(q, 0, Outside);
    assert c[0..] == c;
    NothingLeft(q, 0, Outside, c, 0);
  }

  // ---------------------------------------------------------------- replacing

  /** The text from `prev` on with the given spaces replaced. */
  function Replaced(q: seq<Byte>, spaces: seq<UnicodeSpace>, prev: nat): seq<Byte>
    requires prev <= |q| && InOrder(q, spaces, prev)
    decreases |spaces|
  {
    if spaces == [] then q[prev..]
    else q[prev..spaces[0].pos] + [SPACE] + Replaced(q, spaces[1..], spaces[0].pos + spaces[0].bytes)
  }

  /** The spaces lie one after the other, from `prev` on. */
  ghost predicate InOrder(q: seq<Byte>, spaces: seq<UnicodeSpace>, prev: nat)
    decreases |spaces|
  {
    spaces != [] ==>
      && prev <= spaces[0].pos && spaces[0].pos + spaces[0].bytes <= |q|
      && InOrder(q, spaces[1..], spaces[0].pos + spaces[0].bytes)
  }

  ghost predicate Cleans(q: seq<Byte>, k: nat, r: Region)
    requires k <= |q|
  {
    InOrder(q, Spaces(q, k, r), k) && Replaced(q, Spaces(q, k, r), k) == Cleaned(q, k, r)
  }

  /** Replacing the spaces that the scan finds cleans the text. */
  lemma {:induction false} ReplacingCleans(q: seq<Byte>, k: nat, r: Region)
    requires k <= |q|
    ensures Cleans(q, k, r)
    decreases |q| - k
  {
    hide Cleans, SpaceLength, Next, Spaces, Cleaned;
    if k + 2 >= |q| {
      EndIsKept(q, k, r);
    } else if r == Outside && SpaceLength(q, k) > 0 {
      ReplacingCleans(q, k + SpaceLength(q, k), Outside);
      SpaceIsReplaced(q, k);
    } else {
      ReplacingCleans(q, k + 1, Next(q, k, r));
      ByteIsKept(q, k, r);
    }
  }

  lemma EndIsKept(q: seq<Byte>, k: nat, r: Region)
    requires k <= |q| <= k + 2
    ensures Cleans(q, k, r)
  {
  }

  lemma SpaceIsReplaced(q: seq<Byte>, k: nat)
    requires k + 2 < |q| && SpaceLength(q, k) > 0 && Cleans(q, k + SpaceLength(q, k), Outside)
    ensures Cleans(q, k, Outside)
  {
    InsideSpace(q, k);
    hide SpaceLength, Spaces;
    var n := SpaceLength(q, k);
    var s, rest := UnicodeSpace(k, n), Spaces(q, k + n, Outside);
    assert ([s] + rest)[1..] == rest;
    assert q[k..k] + [SPACE] == [SPACE];
  }

  lemma ByteIsKept(q: seq<Byte>, k: nat, r: Region)
    requires k + 2 < |q| && !(r == Outside && SpaceLength(q, k) > 0)
    requires Cleans(q, k + 1, Next(q, k, r))
    ensures Cleans(q, k, r)
  {
    hide SpaceLength, Next;
    var rest := Spaces(q, k + 1, Next(q, k, r));
    ReplacedLater(q, rest, k, k + 1);
    assert [] + rest == rest;
    assert q[k..k + 1] == [q[k]];
  }

  lemma ReplacedLater(q: seq<Byte>, spaces: seq<UnicodeSpace>, a: nat, b: nat)
    requires a <= b <= |q| && InOrder(q, spaces, b)
    ensures InOrder(q, spaces, a) && Replaced(q, spaces, a) == q[a..b] + Replaced(q, spaces, b)
  {
    if spaces == [] {
      assert q[a..] == q[a..b] + q[b..];
    } else {
      assert q[a..spaces[0].pos] == q[a..b] + q[b..spaces[0].pos];
      var rest := Replaced(q, spaces[1..], spaces[0].pos + spaces[0].bytes);
      assert q[a..b] + q[b..spaces[0].pos] + [SPACE] + rest == q[a..b] + (q[b..spaces[0].pos] + [SPACE] + rest);
    }
  }

  method ReplaceUnicodeSpaces(query: seq<Byte>, unicodeSpaces: seq<UnicodeSpace>) returns (found: bool, newQuery: seq<Byte>)
    requires InOrder(query, unicodeSpaces, 0)
    ensures found == (unicodeSpaces != [])
    ensures newQuery == if found then Replaced(query, unicodeSpaces, 0) else []
  {
    if unicodeSpaces == [] {
      return false, [];
    }
    newQuery := [];
    var prev: nat := 0;
    for i := 0 to |unicodeSpaces|
      invariant prev <= |query| && InOrder(query, unicodeSpaces[i..], prev)
      invariant newQuery + Replaced(query, unicodeSpaces[i..], prev) == Replaced(query, unicodeSpaces, 0)
    {
      var usp := unicodeSpaces[i];
      assert unicodeSpaces[i..][0] == usp && unicodeSpaces[i..][1..] == unicodeSpaces[i + 1..];
      ghost var rest := Replaced(query, unicodeSpaces[i + 1..], usp.pos + usp.bytes);
      ConcatAssociates(newQuery, query[prev..usp.pos] + [SPACE], rest);
      ConcatAssociates(newQuery, query[prev..usp.pos], [SPACE]);
      newQuery := newQuery + query[prev..usp.pos];
      newQuery := newQuery + [SPACE];
      prev := usp.pos + usp.bytes;
    }
    newQuery := newQuery + query[prev..];
    found := true;
  }

  // ---------------------------------------------------------------- the machine

  datatype Label = REGULAR | IN_QUOTES | IN_DOLLAR_QUOTES | IN_COMMENT | END

  /** The variables of the machine. */
  datatype Machine = Machine(state: Label, pos: nat, quote: Byte, tag: seq<Byte>)

  /** The spaces that the machine has still to find. */
  ghost function Remaining(q: seq<Byte>, m: Machine): seq<UnicodeSpace> {
    match m.state
    case REGULAR => Spaces(q, m.pos, Outside)
    case IN_QUOTES => Spaces(q, m.pos, Quoted(m.quote))
    case IN_DOLLAR_QUOTES =>
      (match ClosingDollar(q, m.pos, m.tag) case None => [] case Some(p) => Spaces(q, p, Outside))
    case IN_COMMENT => Spaces(q, m.pos, Comment)
    case END => []
  }

  ghost predicate Valid(q: seq<Byte>, m: Machine) {
    && m.pos <= |q|
    && (m.state == IN_QUOTES ==> m.quote == QUOTE || m.quote == DOUBLE_QUOTE)
    && (m.state == IN_COMMENT ==> m.pos < |q| && q[m.pos] == DASH)
  }

  /** Every jump goes forward, or from regular text to a comment, or to the end. */
  ghost predicate Advances(m: Machine, n: Machine) {
    n.state == END || m.pos < n.pos || (m.pos == n.pos && m.state == REGULAR && n.state == IN_COMMENT)
  }

  /** A part of the machine that finds the given spaces. */
  ghost predicate Finds(q: seq<Byte>, m: Machine, found: seq<UnicodeSpace>, n: Machine) {
    Valid(q, n) && Advances(m, n) && Remaining(q, m) == found + Remaining(q, n)
  }

  method SpaceAt(q: seq<Byte>, pos: nat) returns (bytes: nat)
    requires pos + 2 < |q|
    ensures bytes == SpaceLength(q, pos)
  {
    bytes := 0;
    if q[pos] == 0xC2 {
      if q[pos + 1] == 0xA0 {
        bytes := 2;
      }
    }
    if q[pos] == 0xE2 {
      if q[pos + 1] == 0x80 {
        if q[pos + 2] >= 0x80 && q[pos + 2] <= 0x8B {
          bytes := 3;
        } else if q[pos + 2] == 0xAF {
          bytes := 3;
        }
      } else if q[pos + 1] == 0x81 {
        if q[pos + 2] == 0x9F {
          bytes := 3;
        } else if q[pos + 2] == 0xA0 {
          bytes := 3;
        }
      }
    } else if q[pos] == 0xE3 {
      if q[pos + 1] == 0x80 && q[pos + 2] == 0x80 {
        bytes := 3;
      }
    } else if q[pos] == 0xEF {
      if q[pos + 1] == 0xBB && q[pos + 2] == 0xBF {
        bytes := 3;
      }
    }
  }

  /** Regular text, up to something that starts quotes or a comment. */
  method Regular(q: seq<Byte>, m: Machine) returns (found: seq<UnicodeSpace>, n: Machine)
    requires Valid(q, m) && m.state == REGULAR
    ensures Finds(q, m, found, n)
  {
    hide SpaceLength, AfterDollar, Spaces, Next, IsTagFirst;
    var pos := m.pos;
    found := [];
    while pos + 2 < |q|
      invariant m.pos <= pos <= |q|
      invariant Spaces(q, m.pos, Outside) == found + Spaces(q, pos, Outside)
    {
      RegularByte(q, pos);
      var bytes := SpaceAt(q, pos);
      if bytes > 0 {
        found := found + [UnicodeSpace(pos, bytes)];
      } else if q[pos] == DOUBLE_QUOTE || q[pos] == QUOTE {
        return found, m.(state := IN_QUOTES, pos := pos + 1, quote := q[pos]);
      } else if q[pos] == DOLLAR && (q[pos + 1] == DOLLAR || IsTagFirst(q[pos + 1])) {
        n := DollarTag(q, m.(pos := pos));
        return;
      } else if q[pos] == DASH && q[pos + 1] == DASH {
        return found, m.(state := IN_COMMENT, pos := pos);
      }
      pos := pos + 1;
    }
    n := m.(state := END, pos := pos);
    NoSpaces(q, pos, Outside);
  }

  lemma NoSpaces(q: seq<Byte>, pos: nat, r: Region)
    requires pos + 2 >= |q|
    ensures Spaces(q, pos, r) == []
  {
  }

  /** What a byte of regular text does to the spaces that remain. */
  lemma RegularByte(q: seq<Byte>, pos: nat)
    requires pos + 2 < |q|
    ensures var b, rest := q[pos], Spaces(q, pos, Outside);
            if SpaceLength(q, pos) > 0 then
              rest == [UnicodeSpace(pos, SpaceLength(q, pos))] + Spaces(q, pos + 1, Outside)
            else if b == DOUBLE_QUOTE || b == QUOTE then rest == Spaces(q, pos + 1, Quoted(b))
            else if StartsDollar(q, pos) then true
            else if b == DASH && q[pos + 1] == DASH then rest == Spaces(q, pos, Comment)
            else rest == Spaces(q, pos + 1, Outside)
  {
    hide AfterDollar, IsTagFirst;
  }

  /** The scan over the tag of a dollar-quoted string, which may turn out to be regular text. */
  method DollarTag(q: seq<Byte>, m: Machine) returns (n: Machine)
    requires Valid(q, m) && m.state == REGULAR && StartsDollar(q, m.pos)
    ensures Finds(q, m, [], n)
  {
    hide Spaces, Cleaned, Next, SpaceLength;
    DollarIsWhole(q, m.pos);
    NoSpaces(q, |q|, Outside);
    var start := m.pos + 1;
    var pos := start;
    while pos + 2 < |q|
      invariant start <= pos <= |q| && TagStop(q, start) == TagStop(q, pos)
    {
      if q[pos] == DOLLAR {
        return m.(state := IN_DOLLAR_QUOTES, pos := pos, tag := q[start..pos]);
      }
      if !IsTagSubsequent(q[pos]) {
        return m.(pos := pos);
      }
      pos := pos + 1;
    }
    n := m.(state := END, pos := pos);
  }

  method InQuotes(q: seq<Byte>, m: Machine) returns (n: Machine)
    requires Valid(q, m) && m.state == IN_QUOTES
    ensures Finds(q, m, [], n)
  {
    hide Spaces, Cleaned, Next, SpaceLength, ClosingDollar;
    var pos := m.pos;
    while pos + 1 < |q|
      invariant m.pos <= pos <= |q|
      invariant Spaces(q, m.pos, Quoted(m.quote)) == Spaces(q, pos, Quoted(m.quote))
    {
      QuotedByte(q, pos, m.quote);
      if q[pos] == m.quote {
        if q[pos + 1] == m.quote {
          pos := pos + 2;
          continue;
        }
        return m.(state := REGULAR, pos := pos + 1);
      }
      pos := pos + 1;
    }
    NoSpaces(q, pos, Quoted(m.quote));
    n := m.(state := END, pos := pos);
  }

  lemma QuotedByte(q: seq<Byte>, pos: nat, quote: Byte)
    requires pos + 1 < |q| && (quote == QUOTE || quote == DOUBLE_QUOTE)
    ensures Spaces(q, pos, Quoted(quote))
            == if q[pos] != quote then Spaces(q, pos + 1, Quoted(quote))
               else if q[pos + 1] == quote then Spaces(q, pos + 2, Quoted(quote))
               else Spaces(q, pos + 1, Outside)
  {
    assert q[pos + 1] == quote ==> SpaceLength(q, pos + 1) == 0 && !StartsDollar(q, pos + 1);
  }

  method InDollarQuotes(q: seq<Byte>, m: Machine) returns (n: Machine)
    requires Valid(q, m) && m.state == IN_DOLLAR_QUOTES
    ensures Finds(q, m, [], n)
  {
    var pos := m.pos;
    while pos + 2 < |q|
      invariant m.pos <= pos <= |q|
      invariant ClosingDollar(q, m.pos, m.tag) == ClosingDollar(q, pos, m.tag)
    {
      if q[pos] == DOLLAR && |q| - (pos + 1) >= |m.tag| + 1 && q[pos + |m.tag| + 1] == DOLLAR
         && q[pos + 1..pos + 1 + |m.tag|] == m.tag {
        return m.(state := REGULAR, pos := pos + |m.tag| + 1);
      }
      pos := pos + 1;
    }
    n := m.(state := END, pos := pos);
  }

  method InComment(q: seq<Byte>, m: Machine) returns (n: Machine)
    requires Valid(q, m) && m.state == IN_COMMENT
    ensures Finds(q, m, [], n)
  {
    hide Spaces, Cleaned, Next, SpaceLength, ClosingDollar;
    var pos := m.pos;
    while pos < |q|
      invariant m.pos <= pos <= |q|
      invariant Spaces(q, m.pos, Comment) == Spaces(q, pos, Comment)
    {
      CommentByte(q, pos);
      if IsNewline(q[pos]) {
        return m.(state := REGULAR, pos := pos);
      }
      pos := pos + 1;
    }
    NoSpaces(q, pos, Comment);
    n := m.(state := END, pos := pos);
  }

  lemma CommentByte(q: seq<Byte>, pos: nat)
    requires pos < |q|
    ensures Spaces(q, pos, Comment)
            == if IsNewline(q[pos]) then Spaces(q, pos, Outside) else Spaces(q, pos + 1, Comment)
  {
    if IsNewline(q[pos]) {
      assert SpaceLength(q, pos) == 0 && Next(q, pos, Outside) == Outside;
    }
  }

  /** The whole function: it ends, and finds and replaces exactly the spaces of the scan. */
  method StripUnicodeSpaces(query: seq<Byte>) returns (found: bool, newQuery: seq<Byte>)
    ensures found == (Spaces(query, 0, Outside) != [])
    ensures newQuery == if found then Cleaned(query, 0, Outside) else []
    ensures !found ==> Cleaned(query, 0, Outside) == query
  {
    hide Spaces, Cleaned, Replaced, ClosingDollar, Next, SpaceLength, InOrder;
    var m, unicodeSpaces := Machine(REGULAR, 0, 0, []), [];
    while m.state != END
      invariant Valid(query, m)
      invariant Spaces(query, 0, Outside) == unicodeSpaces + Remaining(query, m)
      decreases if m.state == END then 0 else 1, |query| - m.pos, if m.state == REGULAR then 1 else 0
    {
      var more;
      more, m := Jump(query, m);
      unicodeSpaces := unicodeSpaces + more;
    }
    assert unicodeSpaces + [] == unicodeSpaces;
    ReplacingCleans(query, 0, Outside);
    NothingReplaced(query);
    found, newQuery := ReplaceUnicodeSpaces(query, unicodeSpaces);
  }

  /** One of the labelled loops. */
  method Jump(q: seq<Byte>, m: Machine) returns (found: seq<UnicodeSpace>, n: Machine)
    requires Valid(q, m) && m.state != END
    ensures Finds(q, m, found, n)
  {
    found := [];
    match m.state {
      case REGULAR => found, n := Regular(q, m);
      case IN_QUOTES => n := InQuotes(q, m);
      case IN_DOLLAR_QUOTES => n := InDollarQuotes(q, m);
      case IN_COMMENT => n := InComment(q, m);
    }
  }

  lemma NothingReplaced(q: seq<Byte>)
    ensures Replaced(q, [], 0) == q
  {
  }
}
