/**
 * The event-id expression of the ward triggers:
 *   lower(hex(randomblob(4)) || '-' || hex(randomblob(2)) || '-4' ||
 *         substr(hex(randomblob(2)), 2) || '-' ||
 *         substr('89ab', abs(random()) % 4 + 1, 1) ||
 *         substr(hex(randomblob(2)), 2) || '-' || hex(randomblob(6)))
 * The random blobs and the random integer are parameters.
 */
module EventIds {
  import opened Options
  import opened Geometry
  import Text

  /** What one evaluation of the expression draws: five blobs and one 64-bit integer. */
  datatype Randomness = Randomness(b4: seq<byte>, b2a: seq<byte>, b2b: seq<byte>, b2c: seq<byte>, b6: seq<byte>, random: int)

  const Int64Min: int := -0x8000_0000_0000_0000

  /** randomblob(n) yields n bytes and random() a signed 64-bit integer. */
  predicate WellSized(r: Randomness)
  {
    |r.b4| == 4 && |r.b2a| == 2 && |r.b2b| == 2 && |r.b2c| == 2 && |r.b6| == 6 &&
    Int64Min <= r.random < 0x8000_0000_0000_0000
  }

  const HexDigitsUpper := "0123456789ABCDEF"

  predicate IsUpperHex(c: char)
  {
    '0' <= c <= '9' || 'A' <= c <= 'F'
  }

  predicate IsLowerHex(c: char)
  {
    '0' <= c <= '9' || 'a' <= c <= 'f'
  }

  /** hex(blob): two upper-case hex digits per byte. */
  function Hex(bs: seq<byte>): (h: string)
    ensures |h| == 2 * |bs|
    ensures forall k :: 0 <= k < |h| ==> IsUpperHex(h[k])
  {
    if |bs| == 0 then ""
    else [HexDigitsUpper[bs[0] / 16], HexDigitsUpper[bs[0] % 16]] + Hex(bs[1..])
  }

  /** SQLite's abs(): fails with "integer overflow" on the least 64-bit integer. */
  function Abs64(x: int): (r: Option<nat>)
    ensures r.None? <==> x == Int64Min
    ensures r.Some? ==> r.value == x || r.value == -x
  {
    if x == Int64Min then None
    else if x < 0 then Some(-x) else Some(x)
  }

  /** The id before lower(): upper-case hex groups. */
  function RawEventId(r: Randomness, v: char): string
    requires WellSized(r)
  {
    Hex(r.b4) + "-" + Hex(r.b2a) + "-4" + Hex(r.b2b)[1..] + "-" + [v] + Hex(r.b2c)[1..] + "-" + Hex(r.b6)
  }

  /** A lower-case version-4 UUID shape: 8-4-4-4-12 hex groups, version 4, variant 8/9/a/b. */
  predicate UuidV4Shape(s: string)
  {
    |s| == 36 &&
    (forall k :: 0 <= k < 36 ==>
      if k == 8 || k == 13 || k == 18 || k == 23 then s[k] == '-' else IsLowerHex(s[k])) &&
    s[14] == '4' &&
    (s[19] == '8' || s[19] == '9' || s[19] == 'a' || s[19] == 'b')
  }

  /** The event id, or None when random() drew the least 64-bit integer and abs() failed. */
  function EventId(r: Randomness): (id: Option<string>)
    requires WellSized(r)
    ensures id.None? <==> r.random == Int64Min
    ensures id.Some? ==> UuidV4Shape(id.value)
  {
    match Abs64(r.random)
    case None => None
    case Some(a) =>
      var v := "89ab"[a % 4];
      RawShape(r, v);
      Text.LowerAt(RawEventId(r, v));
      Some(Text.Lower(RawEventId(r, v)))
  }

  /** Where each group of the raw id sits, and what it holds. */
  lemma RawShape(r: Randomness, v: char)
    requires WellSized(r) && (v == '8' || v == '9' || v == 'a' || v == 'b')
    ensures var s := RawEventId(r, v);
      |s| == 36 &&
      (forall k :: 0 <= k < 36 ==>
        if k == 8 || k == 13 || k == 18 || k == 23 then s[k] == '-'
        else if k == 14 then s[k] == '4'
        else if k == 19 then s[k] == v
        else IsUpperHex(s[k]))
  {
    var s := RawEventId(r, v);
    var a, b, c, d, e := Hex(r.b4), Hex(r.b2a), Hex(r.b2b)[1..], Hex(r.b2c)[1..], Hex(r.b6);
    assert s == a + "-" + b + "-4" + c + "-" + [v] + d + "-" + e;
    forall k | 0 <= k < 36
      ensures if k == 8 || k == 13 || k == 18 || k == 23 then s[k] == '-'
              else if k == 14 then s[k] == '4'
              else if k == 19 then s[k] == v
              else IsUpperHex(s[k])
    {
      if k < 8 { assert s[k] == a[k]; }
      else if 8 < k < 13 { assert s[k] == b[k - 9]; }
      else if 14 < k < 18 { assert s[k] == c[k - 15]; }
      else if 19 < k < 23 { assert s[k] == d[k - 20]; }
      else if 23 < k { assert s[k] == e[k - 24]; }
    }
  }
}
