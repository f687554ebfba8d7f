/** UniqueId (src/Flop.Core/UniqueId.cs) and Identity (src/Flop.Core/Identity.cs).
    A UniqueId is a prefix and a Guid, written as "prefix-guid". A Guid is
    modelled as its 32 lower-case hexadecimal digits. Its default text is the
    .NET "D" format: 8-4-4-4-12 digits joined by hyphens. */
module UniqueIds {
  import opened Outcomes

  predicate IsHexDigit(c: char) {
    '0' <= c <= '9' || 'a' <= c <= 'f'
  }

  predicate IsHexText(s: string) {
    forall i :: 0 <= i < |s| ==> IsHexDigit(s[i])
  }

  type GuidDigits = s: string | |s| == 32 && IsHexText(s)
    witness "00000000000000000000000000000000"

  datatype Guid = Guid(digits: GuidDigits)

  /** Guid.ToString(): the "D" format, xxxxxxxx-xxxx-xxxx-xxxx-xxxxxxxxxxxx. */
  function GuidText(g: Guid): (s: string)
    ensures |s| == 36
    ensures s[8] == '-' && s[13] == '-' && s[18] == '-' && s[23] == '-'
  {
    var d := g.digits;
    d[..8] + "-" + d[8..12] + "-" + d[12..16] + "-" + d[16..20] + "-" + d[20..]
  }

  /** Guid.Parse for the two lower-case layouts: the 32 bare digits ("N") and
      the hyphenated "D" text. Anything else is a FormatException. */
  function ParseGuid(s: string): (r: Outcome<Guid>)
    ensures r.Done? ==> s == r.value.digits || s == GuidText(r.value)
    ensures r.Threw? ==> r.error == FormatException
  {
    if |s| == 32 && IsHexText(s) then
      Done(Guid(s))
    else if |s| == 36 && s[8] == '-' && s[13] == '-' && s[18] == '-' && s[23] == '-' then
      var d := s[..8] + s[9..13] + s[14..18] + s[19..23] + s[24..];
      if IsHexText(d) then
        var g := Guid(d);
        assert GuidText(g) == s by {
          assert d[..8] == s[..8] && d[8..12] == s[9..13] && d[12..16] == s[14..18];
          assert d[16..20] == s[19..23] && d[20..] == s[24..];
          assert s == s[..8] + "-" + s[9..13] + "-" + s[14..18] + "-" + s[19..23] + "-" + s[24..];
        }
        Done(g)
      else
        Threw(FormatException)
    else
      Threw(FormatException)
  }

  /** Parsing the default text of a Guid gives the Guid back. */
  lemma ParseGuidText(g: Guid)
    ensures ParseGuid(GuidText(g)) == Done(g)
  {
    var s, d := GuidText(g), g.digits;
    assert s[..8] == d[..8] && s[9..13] == d[8..12] && s[14..18] == d[12..16];
    assert s[19..23] == d[16..20] && s[24..] == d[20..];
    assert d == d[..8] + d[8..12] + d[12..16] + d[16..20] + d[20..];
  }

  /** Hexadecimal text holds no hyphen. */
  lemma HexHasNoHyphen(s: string)
    requires IsHexText(s)
    ensures '-' !in s
  {
    assert !IsHexDigit('-');
  }

  /** The Guid text is its first eight digits, a hyphen, then the rest. */
  lemma GuidTextFirstGroup(g: Guid)
    ensures GuidText(g) == g.digits[..8] + ['-'] + GuidText(g)[9..]
    ensures '-' !in g.digits[..8]
  {
    var t := GuidText(g);
    assert t[..8] == g.digits[..8];
    assert t == t[..8] + [t[8]] + t[9..];
    HexHasNoHyphen(g.digits[..8]);
  }

  /** Text of any length other than 32 or 36 is not a Guid. */
  lemma ParseGuidBadLength(s: string)
    requires |s| != 32 && |s| != 36
    ensures ParseGuid(s) == Threw(FormatException)
  {
  }

  /** Parsing the bare digits of a Guid gives the Guid back. */
  lemma ParseGuidDigits(g: Guid)
    ensures ParseGuid(g.digits) == Done(g)
  {
  }

  /** The position of the first c in s, or -1 when there is none. */
  function IndexOf(s: string, c: char): (i: int)
    ensures -1 <= i < |s|
    ensures i == -1 <==> c !in s
    ensures 0 <= i ==> s[i] == c && c !in s[..i]
  {
    if |s| == 0 then -1
    else if s[0] == c then 0
    else
      var k := IndexOf(s[1..], c);
      assert s[1..][..k + 1] == s[1..k + 2] by {
        if k >= 0 { assert s[1..][..k] == s[1..k + 1]; }
      }
      if k < 0 then -1 else k + 1
  }

  /** String.Split(c): the pieces between the occurrences of c, in order; text
      without c is one piece. */
  function Split(s: string, c: char): (parts: seq<string>)
    ensures |parts| >= 1
    ensures forall k :: 0 <= k < |parts| ==> c !in parts[k]
    ensures c !in s ==> parts == [s]
    ensures c in s ==> |parts| >= 2 && parts[0] == s[..IndexOf(s, c)]
    decreases |s|
  {
    var i := IndexOf(s, c);
    if i < 0 then [s] else [s[..i]] + Split(s[i + 1..], c)
  }

  /** The first c sits at k when s[k] is c and none comes before it. */
  lemma {:induction false} IndexOfAt(s: string, c: char, k: int)
    requires 0 <= k < |s| && s[k] == c && c !in s[..k]
    ensures IndexOf(s, c) == k
    decreases k
  {
    if k > 0 {
      assert s[0] == s[..k][0];
      assert s[1..][k - 1] == c;
      assert s[1..][..k - 1] == s[..k][1..];
      IndexOfAt(s[1..], c, k - 1);
    }
  }

  /** Splitting text that starts with a separator-free piece and c gives that
      piece first, then the pieces of the rest. */
  lemma SplitAfterPiece(p: string, c: char, t: string)
    requires c !in p
    ensures Split(p + [c] + t, c) == [p] + Split(t, c)
  {
    var s := p + [c] + t;
    assert s[|p|] == c && s[..|p|] == p;
    IndexOfAt(s, c, |p|);
    assert s[|p| + 1..] == t;
  }

  datatype UniqueId = UniqueId(prefix: string, guid: Guid)
  {
    /** $"{Prefix}-{Guid}": the prefix, a hyphen, then the 36-character
        hyphenated Guid text. */
    function ToString(): (s: string)
      ensures |s| == |prefix| + 37
      ensures s[..|prefix|] == prefix && s[|prefix|] == '-'
      ensures s[|prefix| + 1..] == GuidText(guid)
    {
      prefix + "-" + GuidText(guid)
    }
  }

  /** UniqueId.FromString: split on every '-', take the first piece as the
      prefix and parse the second as a Guid. Fewer than two pieces is the
      IndexOutOfRangeException of parts[1]; a second piece that is not a Guid
      is Guid.Parse's FormatException. */
  function FromString(id: string): (r: Outcome<UniqueId>)
    ensures r == Threw(IndexOutOfRangeException) <==> '-' !in id
    ensures '-' in id ==> (r.Done? <==> ParseGuid(Split(id, '-')[1]).Done?)
    ensures r.Done? ==> '-' in id && r.value.prefix == id[..IndexOf(id, '-')]
                        && ParseGuid(Split(id, '-')[1]) == Done(r.value.guid)
    ensures r.Threw? ==> r.error == IndexOutOfRangeException || r.error == FormatException
  {
    var parts := Split(id, '-');
    if |parts| < 2 then
      Threw(IndexOutOfRangeException)
    else
      match ParseGuid(parts[1])
      case Done(g) => Done(UniqueId(parts[0], g))
      case Threw(e) => Threw(e)
  }

  /** Text with no hyphen has a single piece, so parts[1] is out of range. */
  lemma FromStringNoHyphen(id: string)
    requires '-' !in id
    ensures FromString(id) == Threw(IndexOutOfRangeException)
  {
  }

  /** A hyphen-free prefix followed by '-' and the bare 32 Guid digits is
      read back as that prefix and Guid. */
  lemma FromStringBareDigits(p: string, g: Guid)
    requires '-' !in p
    ensures FromString(p + "-" + g.digits) == Done(UniqueId(p, g))
  {
    SplitAfterPiece(p, '-', g.digits);
    HexHasNoHyphen(g.digits);
    assert p + "-" + g.digits == p + ['-'] + g.digits;
    ParseGuidDigits(g);
  }

  /** With a hyphen-free prefix, the second '-'-piece of ToString is the
      Guid's first eight digits. */
  lemma SecondPieceOfToString(u: UniqueId)
    requires '-' !in u.prefix
    ensures |Split(u.ToString(), '-')| >= 2
    ensures Split(u.ToString(), '-')[1] == u.guid.digits[..8]
  {
    var first := u.guid.digits[..8];
    var t := GuidText(u.guid);
    assert u.ToString() == u.prefix + ['-'] + t;
    SplitAfterPiece(u.prefix, '-', t);
    GuidTextFirstGroup(u.guid);
    SplitAfterPiece(first, '-', t[9..]);
  }

  /** As written, FromString never reads back what ToString wrote: the Guid's
      own hyphens split its text, so with a hyphen-free prefix the second
      piece is the first eight digits, which Guid.Parse rejects. */
  lemma FromStringOfToStringFails(u: UniqueId)
    requires '-' !in u.prefix
    ensures FromString(u.ToString()) == Threw(FormatException)
  {
    SecondPieceOfToString(u);
    ParseGuidBadLength(u.guid.digits[..8]);
  }

  /** Whatever the prefix, FromString(ToString(u)) is never u. */
  lemma FromStringNeverRoundTrips(u: UniqueId)
    ensures FromString(u.ToString()) != Done(u)
  {
    if '-' !in u.prefix {
      FromStringOfToStringFails(u);
    } else {
      var s := u.ToString();
      var j := IndexOf(u.prefix, '-');
      assert s[..j] == u.prefix[..j];
      IndexOfAt(s, '-', j);
    }
  }

  /** The evidently intended reading: the prefix is the text before the first
      '-' and everything after it is the Guid text. */
  function FromStringFirstHyphen(id: string): (r: Outcome<UniqueId>)
    ensures r.Done? ==> '-' !in r.value.prefix
    ensures r.Done? ==>
      (id == r.value.prefix + "-" + GuidText(r.value.guid) || id == r.value.prefix + "-" + r.value.guid.digits)
    ensures '-' !in id ==> r == Threw(FormatException)
  {
    var i := IndexOf(id, '-');
    if i < 0 then
      Threw(FormatException)
    else
      match ParseGuid(id[i + 1..])
      case Done(g) =>
        assert id == id[..i] + "-" + id[i + 1..];
        Done(UniqueId(id[..i], g))
      case Threw(e) => Threw(e)
  }

  /** With the corrected parser every id whose prefix has no hyphen reads
      back as itself. */
  lemma FromStringFirstHyphenRoundTrip(u: UniqueId)
    requires '-' !in u.prefix
    ensures FromStringFirstHyphen(u.ToString()) == Done(u)
  {
    var s := u.ToString();
    IndexOfAt(s, '-', |u.prefix|);
    ParseGuidText(u.guid);
  }

  /** UniqueId.New: the Guid comes from Guid.NewGuid(), here a parameter. */
  function New(prefix: string, newGuid: Guid): (u: UniqueId)
    ensures u.prefix == prefix && u.guid == newGuid
    ensures '-' !in prefix ==> FromStringFirstHyphen(u.ToString()) == Done(u)
  {
    var u := UniqueId(prefix, newGuid);
    if '-' in prefix then u
    else FromStringFirstHyphenRoundTrip(u); u
  }

  /** Identity (src/Flop.Core/Identity.cs): a display name and a UniqueId;
      equality is by value, as for the C# record struct. */
  datatype Identity = Identity(displayName: string, uniqueId: UniqueId)
}
