/**
 * Length-prefixed, checksummed records in an append-only file.  The Raft log writes the
 * checksum after the payload, the binlog before it; both readers stop at the first record
 * that is cut short or whose checksum does not match.
 */
module Framing {
  import opened Bytes
  import opened Crc
  import opened Options

  datatype Layout = ChecksumLast | ChecksumFirst

  /** The length field holds 32 bits, so longer payloads cannot be framed faithfully. */
  predicate Fits(p: seq<byte>) { |p| < U32_LIMIT }

  predicate AllFit(ps: seq<seq<byte>>) { forall i :: 0 <= i < |ps| ==> Fits(ps[i]) }

  function Frame(layout: Layout, p: seq<byte>): (f: seq<byte>)
    ensures |f| == 8 + |p|
  {
    if layout.ChecksumLast? then Le(|p| % U32_LIMIT, 4) + p + Le(Crc32(p), 4)
    else Le(|p| % U32_LIMIT, 4) + Le(Crc32(p), 4) + p
  }

  /** The first record of `file`, and the bytes it takes; `None` where a reader stops. */
  function ReadFrame(layout: Layout, file: seq<byte>): (r: Option<seq<byte>>)
    ensures r.Some? ==> 8 + |r.value| <= |file|
  {
    if |file| < 8 then None
    else
      var len := FromLe(file[..4]);
      if |file| < 8 + len then None
      else
        var (payload, sum) :=
          if layout.ChecksumLast? then (file[4..4 + len], file[4 + len..8 + len])
          else (file[8..8 + len], file[4..8]);
        if Crc32(payload) == FromLe(sum) then Some(payload) else None
  }

  /** Every payload a reader gets out of `file`. */
  function Payloads(layout: Layout, file: seq<byte>): seq<seq<byte>>
    decreases |file|
  {
    match ReadFrame(layout, file)
    case None => []
    case Some(p) => [p] + Payloads(layout, file[8 + |p|..])
  }

  /** The file that appending the payloads one by one produces. */
  function Frames(layout: Layout, ps: seq<seq<byte>>): seq<byte>
  {
    if ps == [] then [] else Frame(layout, ps[0]) + Frames(layout, ps[1..])
  }

  /** How many of the frames lie wholly within the first `k` bytes. */
  function Whole(ps: seq<seq<byte>>, k: nat): (n: nat)
    ensures n <= |ps|
  {
    if ps == [] || k < 8 + |ps[0]| then 0 else 1 + Whole(ps[1..], k - (8 + |ps[0]|))
  }

  lemma FrameLength(layout: Layout, p: seq<byte>)
    ensures |Frame(layout, p)| == 8 + |p|
  {
  }

  lemma ReadFrameHere(layout: Layout, p: seq<byte>, rest: seq<byte>)
    requires Fits(p)
    ensures |Frame(layout, p)| == 8 + |p|
    ensures ReadFrame(layout, Frame(layout, p) + rest) == Some(p)
    ensures (Frame(layout, p) + rest)[8 + |p|..] == rest
    ensures (Frame(layout, p) + rest)[..4] == Le(|p|, 4)
  {
    hide FromLe, Crc32, Le;
    var file := Frame(layout, p) + rest;
    U32RoundTrip(|p|);
    U32RoundTrip(Crc32(p));
    assert file[..4] == Le(|p|, 4);
    if layout.ChecksumLast? {
      assert file[4..4 + |p|] == p;
      assert file[4 + |p|..8 + |p|] == Le(Crc32(p), 4);
    } else {
      assert file[8..8 + |p|] == p;
      assert file[4..8] == Le(Crc32(p), 4);
    }
  }

  /** A record with one byte of its payload or checksum changed is not read: a reader stops there. */
  lemma OneByteRejected(layout: Layout, p: seq<byte>, k: nat, b: byte, rest: seq<byte>)
    requires Fits(p) && 4 <= k < 8 + |p| && b != Frame(layout, p)[k]
    ensures ReadFrame(layout, Frame(layout, p)[k := b] + rest) == None
  {
    hide Frame, Crc32, FromLe;
    var at := if layout.ChecksumLast? then 4 else 8;
    var sum := if layout.ChecksumLast? then 4 + |p| else 4;
    var f, g := Frame(layout, p), Frame(layout, p)[k := b] + rest;
    FrameLength(layout, p);
    ReadFrameHere(layout, p, []);
    assert f + [] == f;
    FrameFields(layout, p);
    assert g[..4] == f[..4];
    if at <= k < at + |p| {
      assert g[at..at + |p|] == p[k - at := b] && g[sum..sum + 4] == f[sum..sum + 4];
      OneByteDetected(p, k - at, b);
    } else {
      assert g[at..at + |p|] == p;
      assert g[sum..sum + 4][k - sum] != f[sum..sum + 4][k - sum];
      FieldsDiffer(g[sum..sum + 4], f[sum..sum + 4]);
    }
  }

  /** So a changed byte costs that record and those after it, and no record before it. */
  lemma CorruptRecordStops(layout: Layout, ps: seq<seq<byte>>, p: seq<byte>, k: nat, b: byte, rest: seq<byte>)
    requires AllFit(ps) && Fits(p) && 4 <= k < 8 + |p| && b != Frame(layout, p)[k]
    ensures Payloads(layout, Frames(layout, ps) + (Frame(layout, p)[k := b] + rest)) == ps
  {
    hide Frame, ReadFrame, Frames;
    var tail := Frame(layout, p)[k := b] + rest;
    OneByteRejected(layout, p, k, b, rest);
    PayloadsOfFrames(layout, ps, tail);
    assert Payloads(layout, tail) == [];
    assert ps + [] == ps;
  }

  lemma FrameFields(layout: Layout, p: seq<byte>)
    requires Fits(p)
    ensures var at := if layout.ChecksumLast? then 4 else 8;
      var sum := if layout.ChecksumLast? then 4 + |p| else 4;
      var f := Frame(layout, p);
      && |f| == 8 + |p| && f[at..at + |p|] == p && FromLe(f[..4]) == |p| && FromLe(f[sum..sum + 4]) == Crc32(p)
  {
    hide Crc32, FromLe, Le;
    U32RoundTrip(|p|);
    U32RoundTrip(Crc32(p));
    var f := Frame(layout, p);
    assert f[..4] == Le(|p|, 4);
    if layout.ChecksumLast? {
      assert f[4 + |p|..8 + |p|] == Le(Crc32(p), 4);
    } else {
      assert f[4..8] == Le(Crc32(p), 4);
    }
  }

  lemma FieldsDiffer(a: seq<byte>, b: seq<byte>)
    requires |a| == |b| && a != b
    ensures FromLe(a) != FromLe(b)
  {
    LeFromLe(a);
    LeFromLe(b);
  }

  /** A frame cut anywhere short of its end is not read, whatever the checksum. */
  lemma ReadFrameCut(layout: Layout, p: seq<byte>, k: nat)
    requires Fits(p) && k < 8 + |p|
    ensures |Frame(layout, p)| == 8 + |p|
    ensures ReadFrame(layout, Frame(layout, p)[..k]) == None
  {
    hide FromLe, Crc32, Le;
    var file := Frame(layout, p)[..k];
    U32RoundTrip(|p|);
    if k >= 8 {
      assert file[..4] == Le(|p|, 4);
    }
  }

  lemma ReadFrameBound(layout: Layout, file: seq<byte>)
    ensures ReadFrame(layout, file).Some? ==> 8 + |ReadFrame(layout, file).value| <= |file|
  {
  }

  lemma Assoc<T>(a: seq<T>, b: seq<T>, c: seq<T>)
    ensures a + b + c == a + (b + c)
  {
  }

  lemma {:induction false} PayloadsOfFrames(layout: Layout, ps: seq<seq<byte>>, tail: seq<byte>)
    requires AllFit(ps)
    ensures Payloads(layout, Frames(layout, ps) + tail) == ps + Payloads(layout, tail)
    decreases |ps|
  {
    hide Frame, ReadFrame;
    if ps == [] {
      assert Frames(layout, ps) + tail == tail;
    } else {
      var rest := Frames(layout, ps[1..]) + tail;
      Assoc(Frame(layout, ps[0]), Frames(layout, ps[1..]), tail);
      ReadFrameHere(layout, ps[0], rest);
      PayloadsOfFrames(layout, ps[1..], tail);
      Assoc([ps[0]], ps[1..], Payloads(layout, tail));
      assert [ps[0]] + ps[1..] == ps;
    }
  }

  lemma CutOfConcat<T>(a: seq<T>, b: seq<T>, k: nat)
    requires k <= |a| + |b|
    ensures (a + b)[..k] == if k < |a| then a[..k] else a + b[..k - |a|]
  {
  }

  /** Cut anywhere, the file reads back as exactly the frames that lie wholly inside the cut. */
  lemma {:induction false} PayloadsOfCut(layout: Layout, ps: seq<seq<byte>>, k: nat)
    requires AllFit(ps) && k <= |Frames(layout, ps)|
    ensures Payloads(layout, Frames(layout, ps)[..k]) == ps[..Whole(ps, k)]
    decreases |ps|
  {
    hide ReadFrame, Frame;
    if ps != [] {
      FrameLength(layout, ps[0]);
      var first := Frame(layout, ps[0]);
      var rest := Frames(layout, ps[1..]);
      CutOfConcat(first, rest, k);
      if k < |first| {
        ReadFrameCut(layout, ps[0], k);
      } else {
        ReadFrameHere(layout, ps[0], rest[..k - |first|]);
        PayloadsOfCut(layout, ps[1..], k - |first|);
      }
    }
  }

  /** `Whole` is the largest number of frames whose bytes fit in `k`. */
  lemma {:induction false} WholeIsMaximal(layout: Layout, ps: seq<seq<byte>>, k: nat)
    requires k <= |Frames(layout, ps)|
    ensures |Frames(layout, ps[..Whole(ps, k)])| <= k
    ensures Frames(layout, ps[..Whole(ps, k)]) == Frames(layout, ps)[..|Frames(layout, ps[..Whole(ps, k)])|]
    ensures Whole(ps, k) < |ps| ==> k < |Frames(layout, ps[..Whole(ps, k) + 1])|
    decreases |ps|
  {
    hide Frame;
    if ps != [] {
      FrameLength(layout, ps[0]);
      var first := Frame(layout, ps[0]);
      var w := Whole(ps, k);
      if k < |first| {
        assert ps[..1][1..] == [];
        assert Frames(layout, ps[..1]) == first;
      } else {
        WholeIsMaximal(layout, ps[1..], k - |first|);
        assert ps[..w][1..] == ps[1..][..w - 1];
        if w < |ps| {
          assert ps[..w + 1][1..] == ps[1..][..w];
        }
      }
    }
  }

  lemma {:induction false} FramesConcat(layout: Layout, ps: seq<seq<byte>>, qs: seq<seq<byte>>)
    ensures Frames(layout, ps + qs) == Frames(layout, ps) + Frames(layout, qs)
    decreases |ps|
  {
    if ps == [] {
      assert ps + qs == qs;
    } else {
      assert (ps + qs)[1..] == ps[1..] + qs;
      FramesConcat(layout, ps[1..], qs);
    }
  }

  lemma FramesAppend(layout: Layout, ps: seq<seq<byte>>, p: seq<byte>)
    ensures Frames(layout, ps + [p]) == Frames(layout, ps) + Frame(layout, p)
  {
    FramesConcat(layout, ps, [p]);
    assert Frames(layout, [p]) == Frame(layout, p);
  }

  /** The file ends where a record ends, so what is appended next will be read. */
  predicate OnBoundary(layout: Layout, file: seq<byte>) { file == Frames(layout, Payloads(layout, file)) }

  lemma {:induction false} PayloadsFit(layout: Layout, file: seq<byte>)
    ensures AllFit(Payloads(layout, file))
    decreases |file|
  {
    ReadFits(layout, file);
    hide ReadFrame;
    var first := ReadFrame(layout, file);
    if first.Some? {
      PayloadsFit(layout, file[8 + |first.value|..]);
    }
  }

  lemma ReadFits(layout: Layout, file: seq<byte>)
    ensures ReadFrame(layout, file).Some? ==>
      Fits(ReadFrame(layout, file).value) && 8 + |ReadFrame(layout, file).value| <= |file|
  {
    hide Crc32;
    if |file| >= 8 {
      LeFromLe(file[..4]);
      Pow256Values();
    }
  }

  // ---- Where an appended record is read back ----

  /** What is read is what the file holds: the bytes of its own frame. */
  lemma ReadFrameIs(layout: Layout, file: seq<byte>, p: seq<byte>)
    requires ReadFrame(layout, file) == Some(p)
    ensures Fits(p) && 8 + |p| <= |file| && file[..8 + |p|] == Frame(layout, p)
  {
    hide ReadFrame, Crc32, FromLe, Le, Frame;
    ReadFields(layout, file, p);
    ReadFits(layout, file);
    LeFromLe(file[..4]);
    LeFromLe(if layout.ChecksumLast? then file[4 + |p|..8 + |p|] else file[4..8]);
    FrameParts(layout, p);
    if layout.ChecksumLast? {
      ThreeParts(file, 4, 4 + |p|, 8 + |p|);
    } else {
      ThreeParts(file, 4, 8, 8 + |p|);
    }
  }

  lemma ReadFields(layout: Layout, file: seq<byte>, p: seq<byte>)
    requires ReadFrame(layout, file) == Some(p)
    ensures 8 + |p| <= |file| && FromLe(file[..4]) == |p|
    ensures layout.ChecksumLast? ==> file[4..4 + |p|] == p && FromLe(file[4 + |p|..8 + |p|]) == Crc32(p)
    ensures layout.ChecksumFirst? ==> file[8..8 + |p|] == p && FromLe(file[4..8]) == Crc32(p)
  {
    hide FromLe, Crc32;
  }

  lemma FrameParts(layout: Layout, p: seq<byte>)
    requires Fits(p)
    ensures Frame(layout, p) ==
      if layout.ChecksumLast? then Le(|p|, 4) + p + Le(Crc32(p), 4) else Le(|p|, 4) + Le(Crc32(p), 4) + p
  {
    hide Crc32, Le, Frame;
    FrameUnfold(layout, p);
    LengthField(|p|);
  }

  lemma LengthField(n: nat)
    requires n < U32_LIMIT
    ensures Le(n % U32_LIMIT, 4) == Le(n, 4)
  {
    SmallModulus(n);
  }

  lemma SmallModulus(n: nat)
    requires n < U32_LIMIT
    ensures n % U32_LIMIT == n
  {
  }

  lemma FrameUnfold(layout: Layout, p: seq<byte>)
    ensures Frame(layout, p) ==
      if layout.ChecksumLast? then Le(|p| % U32_LIMIT, 4) + p + Le(Crc32(p), 4)
      else Le(|p| % U32_LIMIT, 4) + Le(Crc32(p), 4) + p
  {
    hide Crc32, Le;
  }

  lemma ThreeParts(file: seq<byte>, i: nat, j: nat, k: nat)
    requires i <= j <= k <= |file|
    ensures file[..k] == file[..i] + file[i..j] + file[j..k]
  {
  }

  /** A file is the frames of what is read from it, and a rest of which nothing is read. */
  lemma {:induction false} FramesAndRest(layout: Layout, file: seq<byte>) returns (rest: seq<byte>)
    ensures file == Frames(layout, Payloads(layout, file)) + rest && ReadFrame(layout, rest) == None
    decreases |file|
  {
    hide ReadFrame, Frame;
    var first := ReadFrame(layout, file);
    if first.None? {
      rest := file;
      assert Frames(layout, []) + file == file;
    } else {
      var p := first.value;
      ReadFrameIs(layout, file, p);
      var tail := file[8 + |p|..];
      rest := FramesAndRest(layout, tail);
      var ps := Payloads(layout, tail);
      assert file == Frame(layout, p) + tail;
      assert ([p] + ps)[1..] == ps;
      Assoc(Frame(layout, p), Frames(layout, ps), rest);
    }
  }

  /** The first byte of a frame is the low byte of its length. */
  lemma FrameFirst(layout: Layout, p: seq<byte>)
    requires Fits(p)
    ensures |Frame(layout, p)| > 0 && Frame(layout, p)[0] == |p| % 256
  {
    hide Crc32;
    FrameParts(layout, p);
    hide Frame;
  }

  /**
   * Records appended to a file are read back, after all that was read before, whatever they
   * are, exactly when the file is on a record boundary.
   */
  lemma BoundaryIff(layout: Layout, wal: seq<byte>)
    ensures OnBoundary(layout, wal) <==>
      forall p :: Fits(p) ==> Payloads(layout, wal + Frame(layout, p)) == Payloads(layout, wal) + [p]
  {
    hide ReadFrame, Frame, Payloads;
    var rest := FramesAndRest(layout, wal);
    var ps := Payloads(layout, wal);
    PayloadsFit(layout, wal);
    if rest == [] {
      assert OnBoundary(layout, wal);
      forall p | Fits(p) ensures Payloads(layout, wal + Frame(layout, p)) == ps + [p] {
        PayloadsOfFrames(layout, ps, Frame(layout, p));
        OneFrame(layout, p);
      }
    } else {
      var n: nat := (rest[0] as int + 1) % 256;
      var p: seq<byte> := seq(n, _ => 0);
      assert |p| % 256 != rest[0];
      FrameFirst(layout, p);
      PayloadsOfFrames(layout, ps, rest + Frame(layout, p));
      Assoc(Frames(layout, ps), rest, Frame(layout, p));
      HiddenRecord(layout, rest, p);
      SamePrefix(ps, Payloads(layout, rest + Frame(layout, p)), [p]);
      assert |wal| != |Frames(layout, ps)|;
    }
  }

  lemma OneFrame(layout: Layout, p: seq<byte>)
    requires Fits(p)
    ensures Payloads(layout, Frame(layout, p)) == [p]
  {
    hide ReadFrame, Frame;
    PayloadsOfFrames(layout, [p], []);
    assert Frames(layout, [p]) + [] == Frame(layout, p) by {
      assert [p][1..] == [];
      assert Frame(layout, p) + [] + [] == Frame(layout, p);
    }
    assert Payloads(layout, []) == [] by { EmptyFile(layout); }
  }

  lemma EmptyFile(layout: Layout)
    ensures Payloads(layout, []) == []
  {
  }

  /** Behind a rest that begins with another length, a record is not read as itself. */
  lemma HiddenRecord(layout: Layout, rest: seq<byte>, p: seq<byte>)
    requires rest != [] && Fits(p) && Frame(layout, p) != [] && Frame(layout, p)[0] != rest[0]
    ensures Payloads(layout, rest + Frame(layout, p)) != [p]
  {
    hide ReadFrame, Frame;
    var file := rest + Frame(layout, p);
    if ReadFrame(layout, file).Some? {
      var q := ReadFrame(layout, file).value;
      ReadFrameIs(layout, file, q);
      FrameLength(layout, q);
      assert Frame(layout, q)[0] == file[..8 + |q|][0] == rest[0];
      assert Payloads(layout, file)[0] == q;
    }
  }

  lemma SamePrefix<T>(a: seq<T>, b: seq<T>, c: seq<T>)
    ensures a + b == a + c <==> b == c
  {
    if a + b == a + c {
      assert b == (a + b)[|a|..] && c == (a + c)[|a|..];
    }
  }
}
