/** Signature sniffing of the native `.vips` loader: the first four bytes of a
    `.vips` file are its magic number, written in the byte order of the machine
    that saved it. */
module VipsLoad {
  import opened Common

  newtype byte = x: int | 0 <= x < 256

  /** Magic number as stored by a little-endian ("intel") machine. */
  const SigIntel: seq<byte> := [8, 242, 166, 182]
  /** Magic number as stored by a big-endian ("sparc") machine. */
  const SigSparc: seq<byte> := [182, 166, 242, 8]

  /** The bits of VipsForeignFlags that this loader reports. */
  datatype ForeignFlag = Partial | BigEndian

  function Reverse(s: seq<byte>): (r: seq<byte>)
    ensures |r| == |s|
    ensures forall i :: 0 <= i < |s| ==> r[i] == s[|s| - 1 - i]
  {
    if s == [] then [] else Reverse(s[1..]) + [s[0]]
  }

  /** memcmp(p, q, n): zero exactly when the first n bytes agree. C promises
      only the sign otherwise, and both callers test only for zero; this
      model returns the difference at the first byte where they differ,
      which has that sign. */
  function Memcmp(p: seq<byte>, q: seq<byte>, n: nat): (r: int)
    requires n <= |p| && n <= |q|
    ensures (r == 0) <==> p[..n] == q[..n]
    ensures r != 0 ==> exists i :: 0 <= i < n && p[..i] == q[..i] && r == p[i] as int - q[i] as int
  {
    if n == 0 then 0
    else if p[0] != q[0] then
      assert p[..1] != q[..1];
      assert p[..0] == q[..0];
      p[0] as int - q[0] as int
    else
      var r := Memcmp(p[1..], q[1..], n - 1);
      assert p[..n] == [p[0]] + p[1..][..n - 1];
      assert q[..n] == [q[0]] + q[1..][..n - 1];
      if r != 0 then
        var i :| 0 <= i < n - 1 && p[1..][..i] == q[1..][..i] && r == p[1..][i] as int - q[1..][i] as int;
        assert p[..i + 1] == [p[0]] + p[1..][..i];
        assert q[..i + 1] == [q[0]] + q[1..][..i];
        r
      else r
  }

  /** vips_source_sniff(source, 4): a pointer to the first four bytes of the
      source, or NULL when fewer than four can be read; the source is given
      by everything it would deliver. */
  function Sniff(source: seq<byte>, length: nat): (p: Option<seq<byte>>)
    ensures p.Some? <==> |source| >= length
    ensures p.Some? ==> p.value == source[..length]
  {
    if |source| >= length then Some(source[..length]) else None
  }

  /** vips_foreign_load_vips_source_is_a_source */
  function IsASource(source: seq<byte>): (r: bool)
    ensures r <==> |source| >= 4 && (source[..4] == SigIntel || source[..4] == SigSparc)
  {
    match Sniff(source, 4)
    case Some(p) => Memcmp(p, SigIntel, 4) == 0 || Memcmp(p, SigSparc, 4) == 0
    case None => false
  }

  /** vips_foreign_load_vips_get_flags_source */
  function GetFlagsSource(source: seq<byte>): (flags: set<ForeignFlag>)
    ensures Partial in flags
    ensures BigEndian in flags <==> |source| >= 4 && source[..4] == SigSparc
    ensures flags <= {Partial, BigEndian}
  {
    var flags := {Partial};
    match Sniff(source, 4)
    case Some(p) => if Memcmp(p, SigSparc, 4) == 0 then flags + {BigEndian} else flags
    case None => flags
  }

  /** The two signatures are byte-reversals of each other and distinct, so a
      file saved on a little-endian machine is never flagged big-endian. */
  lemma SignaturesMirror(source: seq<byte>)
    ensures SigSparc == Reverse(SigIntel) && SigSparc != SigIntel
    ensures |source| >= 4 && source[..4] == SigIntel ==> IsASource(source) && BigEndian !in GetFlagsSource(source)
  {
    assert SigSparc[0] != SigIntel[0];
  }

  /** A source too short to sniff is not a `.vips` source and is only partial. */
  lemma ShortSource(source: seq<byte>)
    requires |source| < 4
    ensures !IsASource(source) && GetFlagsSource(source) == {Partial}
  {
  }

  /** Whatever follows the signature does not matter. */
  lemma OnlyPrefixMatters(source: seq<byte>, rest: seq<byte>)
    requires |source| >= 4
    ensures IsASource(source + rest) == IsASource(source)
    ensures GetFlagsSource(source + rest) == GetFlagsSource(source)
  {
    assert (source + rest)[..4] == source[..4];
  }
}
