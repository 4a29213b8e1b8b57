/**
 * The 16-byte UUID that identifies a task, its canonical text form
 * (`uuid.UUID.String()`: lower-case hex in groups 8-4-4-4-12) and the
 * parsing the database applies to an id string compared with a uuid column.
 */
module Uuids {
  import opened Results

  type Byte = x: nat | x < 256

  type Uuid = s: seq<Byte> | |s| == 16 witness [0, 0, 0, 0, 0, 0, 0, 0, 0, 0, 0, 0, 0, 0, 0, 0]

  /** `uuid.Nil`, the all-zero UUID. */
  const Nil: Uuid := [0, 0, 0, 0, 0, 0, 0, 0, 0, 0, 0, 0, 0, 0, 0, 0]

  /** Positions of the four hyphens in the 36-character text form. */
  predicate IsHyphenPos(i: int)
  {
    i == 8 || i == 13 || i == 18 || i == 23
  }

  predicate IsLowerHex(c: char)
  {
    '0' <= c <= '9' || 'a' <= c <= 'f'
  }

  function HexDigit(n: nat): (c: char)
    requires n < 16
    ensures IsLowerHex(c)
  {
    if n < 10 then (('0' as int) + n) as char else (('a' as int) + n - 10) as char
  }

  /** Value of one hex digit of either case; the database accepts both. */
  function HexValue(c: char): (r: Option<nat>)
    ensures r.Some? ==> r.value < 16
  {
    if '0' <= c <= '9' then Some(c as int - '0' as int)
    else if 'a' <= c <= 'f' then Some(c as int - 'a' as int + 10)
    else if 'A' <= c <= 'F' then Some(c as int - 'A' as int + 10)
    else None
  }

  lemma HexValueOfDigit(n: nat)
    requires n < 16
    ensures HexValue(HexDigit(n)) == Some(n)
  {
  }

  /** Upper-case hex letters lowered; every other character kept. */
  function LowerHexChar(c: char): (r: char)
    ensures HexValue(r) == HexValue(c)
    ensures HexValue(c).Some? ==> IsLowerHex(r)
    ensures !('A' <= c <= 'F') ==> r == c
  {
    if 'A' <= c <= 'F' then (c as int - 'A' as int + 'a' as int) as char else c
  }

  /** The text with its hex letters lowered, as the canonical form writes them. */
  function Lower(s: string): (r: string)
    ensures |r| == |s|
    ensures forall i :: 0 <= i < |s| ==> r[i] == LowerHexChar(s[i])
  {
    seq(|s|, i requires 0 <= i < |s| => LowerHexChar(s[i]))
  }

  /** The lower-case digit written for the value of a hex digit of either case. */
  lemma HexDigitOfValue(c: char)
    requires HexValue(c).Some?
    ensures HexDigit(HexValue(c).value) == LowerHexChar(c)
  {
  }

  predicate IsHexText(s: string)
  {
    forall i :: 0 <= i < |s| ==> HexValue(s[i]).Some?
  }

  /** Two lower-case hex digits per byte, high nibble first. */
  function HexBytes(bs: seq<Byte>): (s: string)
    ensures |s| == 2 * |bs|
    ensures forall i :: 0 <= i < |s| ==> IsLowerHex(s[i])
  {
    if bs == [] then []
    else [HexDigit(bs[0] / 16), HexDigit(bs[0] % 16)] + HexBytes(bs[1..])
  }

  function ParseHexBytes(s: string): (r: Option<seq<Byte>>)
    ensures r.Some? ==> 2 * |r.value| == |s|
  {
    if |s| == 0 then Some([])
    else if |s| == 1 then None
    else
      match (HexValue(s[0]), HexValue(s[1]), ParseHexBytes(s[2..]))
      case (Some(hi), Some(lo), Some(rest)) => Some([hi * 16 + lo] + rest)
      case _ => None
  }

  lemma HexTextCons(s: string)
    requires |s| >= 2
    ensures IsHexText(s) <==> HexValue(s[0]).Some? && HexValue(s[1]).Some? && IsHexText(s[2..])
  {
    if HexValue(s[0]).Some? && HexValue(s[1]).Some? && IsHexText(s[2..]) {
      forall i | 2 <= i < |s|
        ensures HexValue(s[i]).Some?
      {
        assert s[i] == s[2..][i - 2];
      }
    }
  }

  /** A group parses exactly when it is an even number of hex digits of either case. */
  lemma {:induction false} ParseHexBytesOk(s: string)
    ensures ParseHexBytes(s).Some? <==> |s| % 2 == 0 && IsHexText(s)
  {
    if |s| >= 2 {
      ParseHexBytesOk(s[2..]);
      HexTextCons(s);
    }
  }

  lemma LowerCons(s: string)
    requires |s| >= 2
    ensures Lower(s) == [LowerHexChar(s[0]), LowerHexChar(s[1])] + Lower(s[2..])
  {
  }

  lemma HexBytesCons(hi: nat, lo: nat, rest: seq<Byte>)
    requires hi < 16 && lo < 16
    ensures HexBytes([hi * 16 + lo] + rest) == [HexDigit(hi), HexDigit(lo)] + HexBytes(rest)
  {
    var bs: seq<Byte> := [hi * 16 + lo] + rest;
    assert bs[1..] == rest;
  }

  /** Writing back the bytes of a group gives the group with its hex letters lowered. */
  lemma {:induction false} ParseHexBytesValue(s: string)
    requires ParseHexBytes(s).Some?
    ensures HexBytes(ParseHexBytes(s).value) == Lower(s)
  {
    if |s| >= 2 {
      ParseHexBytesValue(s[2..]);
      HexDigitOfValue(s[0]);
      HexDigitOfValue(s[1]);
      HexBytesCons(HexValue(s[0]).value, HexValue(s[1]).value, ParseHexBytes(s[2..]).value);
      LowerCons(s);
    }
  }

  lemma {:induction false} ParseHexBytesRoundTrip(bs: seq<Byte>)
    ensures ParseHexBytes(HexBytes(bs)) == Some(bs)
  {
    if bs != [] {
      var s := HexBytes(bs);
      HexValueOfDigit(bs[0] / 16);
      HexValueOfDigit(bs[0] % 16);
      assert s[2..] == HexBytes(bs[1..]);
      ParseHexBytesRoundTrip(bs[1..]);
      assert [bs[0]] + bs[1..] == bs;
    }
  }

  /** `uuid.UUID.String()`: xxxxxxxx-xxxx-xxxx-xxxx-xxxxxxxxxxxx in lower-case hex. */
  function ToString(u: Uuid): (s: string)
    ensures |s| == 36
    ensures forall i :: 0 <= i < 36 ==> (IsHyphenPos(i) <==> s[i] == '-')
    ensures forall i :: 0 <= i < 36 && !IsHyphenPos(i) ==> IsLowerHex(s[i])
  {
    var a, b, c, d, e := HexBytes(u[0..4]), HexBytes(u[4..6]), HexBytes(u[6..8]), HexBytes(u[8..10]), HexBytes(u[10..16]);
    JoinGroups(a, b, c, d, e);
    Join(a, b, c, d, e)
  }

  /** Five hex groups joined by hyphens. */
  function Join(a: string, b: string, c: string, d: string, e: string): string
  {
    a + "-" + b + "-" + c + "-" + d + "-" + e
  }

  /** Where each group of a joined text form sits. */
  lemma JoinGroups(a: string, b: string, c: string, d: string, e: string)
    requires |a| == 8 && |b| == 4 && |c| == 4 && |d| == 4 && |e| == 12
    ensures var s := Join(a, b, c, d, e);
            && |s| == 36
            && s[0..8] == a && s[9..13] == b && s[14..18] == c && s[19..23] == d && s[24..36] == e
            && (forall i :: 0 <= i < 36 && IsHyphenPos(i) ==> s[i] == '-')
            && (forall i :: 0 <= i < 8 ==> s[i] == a[i])
            && (forall i :: 9 <= i < 13 ==> s[i] == b[i - 9])
            && (forall i :: 14 <= i < 18 ==> s[i] == c[i - 14])
            && (forall i :: 19 <= i < 23 ==> s[i] == d[i - 19])
            && (forall i :: 24 <= i < 36 ==> s[i] == e[i - 24])
  {
  }

  /** The hyphenated 8-4-4-4-12 layout with hex digits of either case. */
  predicate IsUuidText(s: string)
  {
    && |s| == 36
    && forall i :: 0 <= i < 36 ==> if IsHyphenPos(i) then s[i] == '-' else HexValue(s[i]).Some?
  }

  /**
   * The id text the database accepts for a uuid column, in the canonical
   * hyphenated layout with hex digits of either case. An accepted text
   * stands for the UUID whose canonical form is the text lowered.
   */
  function Parse(s: string): (r: Option<Uuid>)
    ensures r.Some? <==> IsUuidText(s)
    ensures r.Some? ==> ToString(r.value) == Lower(s)
  {
    if |s| != 36 || s[8] != '-' || s[13] != '-' || s[18] != '-' || s[23] != '-' then None
    else
      ParseGroupsSpec(s);
      match ParseGroups(s)
      case Some(u) => Some(u)
      case None => None
  }

  /** The bytes of the five hex groups, in order, when all of them parse. */
  function ParseGroups(s: string): Option<seq<Byte>>
    requires |s| == 36
  {
    var a, b, c, d, e := ParseHexBytes(s[0..8]), ParseHexBytes(s[9..13]), ParseHexBytes(s[14..18]),
                         ParseHexBytes(s[19..23]), ParseHexBytes(s[24..36]);
    if a.Some? && b.Some? && c.Some? && d.Some? && e.Some? then
      Some(a.value + b.value + c.value + d.value + e.value)
    else
      None
  }

  lemma ParseGroupsSpec(s: string)
    requires |s| == 36 && forall i :: 0 <= i < 36 && IsHyphenPos(i) ==> s[i] == '-'
    ensures ParseGroups(s).Some? <==> IsUuidText(s)
    ensures ParseGroups(s).Some? ==> |ParseGroups(s).value| == 16 && ToString(ParseGroups(s).value) == Lower(s)
  {
    GroupsOk(s);
    if ParseGroups(s).Some? {
      GroupsValue(s, ParseHexBytes(s[0..8]).value, ParseHexBytes(s[9..13]).value, ParseHexBytes(s[14..18]).value,
                  ParseHexBytes(s[19..23]).value, ParseHexBytes(s[24..36]).value);
    }
  }

  /** A hyphenated 36-character text is a UUID text exactly when its five groups parse. */
  lemma GroupsOk(s: string)
    requires |s| == 36 && forall i :: 0 <= i < 36 && IsHyphenPos(i) ==> s[i] == '-'
    ensures IsUuidText(s) <==>
              && ParseHexBytes(s[0..8]).Some? && ParseHexBytes(s[9..13]).Some? && ParseHexBytes(s[14..18]).Some?
              && ParseHexBytes(s[19..23]).Some? && ParseHexBytes(s[24..36]).Some?
  {
    ParseHexBytesOk(s[0..8]);
    ParseHexBytesOk(s[9..13]);
    ParseHexBytesOk(s[14..18]);
    ParseHexBytesOk(s[19..23]);
    ParseHexBytesOk(s[24..36]);
    GroupsHex(s);
  }

  /** The bytes of the five groups, in order, form the UUID whose canonical text is the text lowered. */
  lemma GroupsValue(s: string, a: seq<Byte>, b: seq<Byte>, c: seq<Byte>, d: seq<Byte>, e: seq<Byte>)
    requires |s| == 36 && forall i :: 0 <= i < 36 && IsHyphenPos(i) ==> s[i] == '-'
    requires ParseHexBytes(s[0..8]) == Some(a) && ParseHexBytes(s[9..13]) == Some(b)
    requires ParseHexBytes(s[14..18]) == Some(c) && ParseHexBytes(s[19..23]) == Some(d)
    requires ParseHexBytes(s[24..36]) == Some(e)
    ensures |a + b + c + d + e| == 16 && ToString(a + b + c + d + e) == Lower(s)
  {
    GroupsLower(s, a, b, c, d, e);
    ToStringOfGroups(a, b, c, d, e);
    LowerJoin(s);
  }

  /** Each group's bytes, written back, give that group lowered. */
  lemma GroupsLower(s: string, a: seq<Byte>, b: seq<Byte>, c: seq<Byte>, d: seq<Byte>, e: seq<Byte>)
    requires |s| == 36
    requires ParseHexBytes(s[0..8]) == Some(a) && ParseHexBytes(s[9..13]) == Some(b)
    requires ParseHexBytes(s[14..18]) == Some(c) && ParseHexBytes(s[19..23]) == Some(d)
    requires ParseHexBytes(s[24..36]) == Some(e)
    ensures HexBytes(a) == Lower(s[0..8]) && HexBytes(b) == Lower(s[9..13]) && HexBytes(c) == Lower(s[14..18])
    ensures HexBytes(d) == Lower(s[19..23]) && HexBytes(e) == Lower(s[24..36])
  {
    ParseHexBytesValue(s[0..8]);
    ParseHexBytesValue(s[9..13]);
    ParseHexBytesValue(s[14..18]);
    ParseHexBytesValue(s[19..23]);
    ParseHexBytesValue(s[24..36]);
  }

  /** The canonical text of five byte groups laid end to end. */
  lemma ToStringOfGroups(a: seq<Byte>, b: seq<Byte>, c: seq<Byte>, d: seq<Byte>, e: seq<Byte>)
    requires |a| == 4 && |b| == 2 && |c| == 2 && |d| == 2 && |e| == 6
    ensures ToString(a + b + c + d + e) == Join(HexBytes(a), HexBytes(b), HexBytes(c), HexBytes(d), HexBytes(e))
  {
    var u: Uuid := a + b + c + d + e;
    assert u[0..4] == a && u[4..6] == b && u[6..8] == c && u[8..10] == d && u[10..16] == e;
    assert ToString(u) == Join(HexBytes(u[0..4]), HexBytes(u[4..6]), HexBytes(u[6..8]), HexBytes(u[8..10]), HexBytes(u[10..16]));
  }

  /** The text form is hex exactly when each of its five groups is. */
  lemma GroupsHex(s: string)
    requires |s| == 36 && forall i :: 0 <= i < 36 && IsHyphenPos(i) ==> s[i] == '-'
    ensures IsUuidText(s) <==>
              IsHexText(s[0..8]) && IsHexText(s[9..13]) && IsHexText(s[14..18]) && IsHexText(s[19..23]) && IsHexText(s[24..36])
  {
    if IsHexText(s[0..8]) && IsHexText(s[9..13]) && IsHexText(s[14..18]) && IsHexText(s[19..23]) && IsHexText(s[24..36]) {
      forall i | 0 <= i < 36 && !IsHyphenPos(i)
        ensures HexValue(s[i]).Some?
      {
        if i < 8 { assert s[i] == s[0..8][i]; }
        else if i < 13 { assert s[i] == s[9..13][i - 9]; }
        else if i < 18 { assert s[i] == s[14..18][i - 14]; }
        else if i < 23 { assert s[i] == s[19..23][i - 19]; }
        else { assert s[i] == s[24..36][i - 24]; }
      }
    }
  }

  /** Lowering a hyphenated text lowers each group and keeps the hyphens. */
  lemma LowerJoin(s: string)
    requires |s| == 36 && forall i :: 0 <= i < 36 && IsHyphenPos(i) ==> s[i] == '-'
    ensures Join(Lower(s[0..8]), Lower(s[9..13]), Lower(s[14..18]), Lower(s[19..23]), Lower(s[24..36])) == Lower(s)
  {
    var j := Join(Lower(s[0..8]), Lower(s[9..13]), Lower(s[14..18]), Lower(s[19..23]), Lower(s[24..36]));
    JoinGroups(Lower(s[0..8]), Lower(s[9..13]), Lower(s[14..18]), Lower(s[19..23]), Lower(s[24..36]));
    forall i | 0 <= i < 36
      ensures j[i] == Lower(s)[i]
    {
      if IsHyphenPos(i) { assert s[i] == '-'; }
      else if i < 8 { assert s[0..8][i] == s[i]; }
      else if i < 13 { assert s[9..13][i - 9] == s[i]; }
      else if i < 18 { assert s[14..18][i - 14] == s[i]; }
      else if i < 23 { assert s[19..23][i - 19] == s[i]; }
      else { assert s[24..36][i - 24] == s[i]; }
    }
  }

  /** An id text names a UUID exactly when lowering it gives that UUID's canonical form. */
  lemma ParseMeaning(s: string, u: Uuid)
    ensures Parse(s) == Some(u) <==> Lower(s) == ToString(u)
  {
    if Lower(s) == ToString(u) {
      assert IsUuidText(s) by {
        forall i | 0 <= i < 36
          ensures if IsHyphenPos(i) then s[i] == '-' else HexValue(s[i]).Some?
        {
          assert Lower(s)[i] == LowerHexChar(s[i]);
        }
      }
      ToStringInjective(Parse(s).value, u);
    }
  }

  /** Every UUID's text form is accepted and names that same UUID. */
  lemma ParseToString(u: Uuid)
    ensures Parse(ToString(u)) == Some(u)
  {
    ParseJoin(u[0..4], u[4..6], u[6..8], u[8..10], u[10..16]);
    RegroupUuid(u);
  }

  lemma RegroupUuid(u: Uuid)
    ensures u[0..4] + u[4..6] + u[6..8] + u[8..10] + u[10..16] == u
  {
    assert u[0..4] + u[4..6] == u[0..6];
    assert u[0..6] + u[6..8] == u[0..8];
    assert u[0..8] + u[8..10] == u[0..10];
    assert u[0..10] + u[10..16] == u;
  }

  /** Five byte groups of the UUID layout, written out and parsed back. */
  lemma ParseJoin(p: seq<Byte>, q: seq<Byte>, r: seq<Byte>, s: seq<Byte>, t: seq<Byte>)
    requires |p| == 4 && |q| == 2 && |r| == 2 && |s| == 2 && |t| == 6
    ensures Parse(Join(HexBytes(p), HexBytes(q), HexBytes(r), HexBytes(s), HexBytes(t))) == Some(p + q + r + s + t)
  {
    JoinGroups(HexBytes(p), HexBytes(q), HexBytes(r), HexBytes(s), HexBytes(t));
    ParseHexBytesRoundTrip(p);
    ParseHexBytesRoundTrip(q);
    ParseHexBytesRoundTrip(r);
    ParseHexBytesRoundTrip(s);
    ParseHexBytesRoundTrip(t);
  }

  /** Distinct UUIDs have distinct text forms. */
  lemma ToStringInjective(u: Uuid, v: Uuid)
    requires ToString(u) == ToString(v)
    ensures u == v
  {
    ParseToString(u);
    ParseToString(v);
  }
}
