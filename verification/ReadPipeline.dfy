/** The read pipeline of cdvdman/cdvdman.c below its callers: a request is read straight into the
    caller's buffer, or in pieces of at most 8 sectors when accurate timing is emulated, or in
    pieces of 2 sectors through a bounce buffer when the caller's buffer is not word aligned.
    Sectors below 13 hold the console's logo, which is decoded piece by piece on the way. */
module ReadPipeline {
  import opened Sequences

  const LOGO_SECTORS := 13
  const BOUNCE_SECTORS := 2
  const ACCURATE_SECTORS := 8

  // One byte of the logo under its key: exclusive or, then rotate left by three.
  function DecodeByte(b: Byte, key: Byte): Byte {
    ((b ^ key) << 3) | ((b ^ key) >> 5)
  }

  // The key is the first byte of the piece that was read; a zero key means no decoding.
  function Decode(lsn: nat, piece: seq<Byte>): (d: seq<Byte>)
    ensures |d| == |piece|
  {
    if lsn < LOGO_SECTORS && piece != [] && piece[0] != 0 then
      seq(|piece|, i requires 0 <= i < |piece| => DecodeByte(piece[i], piece[0]))
    else piece
  }

  // n sectors as one piece.
  function Piece(disc: nat -> Byte, lsn: nat, n: nat): (b: seq<Byte>)
    ensures |b| == 2048 * n
  {
    Decode(lsn, Bytes(disc, 2048 * lsn, 2048 * n))
  }

  // The way back: rotate right by three, then exclusive or.
  function EncodeByte(b: Byte, key: Byte): Byte {
    ((b >> 3) | (b << 5)) ^ key
  }

  lemma DecodeByteInverts(b: Byte, key: Byte)
    ensures DecodeByte(EncodeByte(b, key), key) == b && EncodeByte(DecodeByte(b, key), key) == b
    ensures EncodeByte(0, key) == key
  {
  }

  function Encode(plain: seq<Byte>, key: Byte): (e: seq<Byte>)
    ensures |e| == |plain|
  {
    seq(|plain|, i requires 0 <= i < |plain| => EncodeByte(plain[i], key))
  }

  /** The logo is restored: a piece that begins with a zero and has been encoded under any key, which it then begins with,
      is decoded to what it was, below sector 13; from there on a piece is left as it is. */
  lemma LogoRestored(lsn: nat, plain: seq<Byte>, key: Byte)
    requires plain != [] && plain[0] == 0 && key != 0
    ensures lsn < 13 ==> Decode(lsn, Encode(plain, key)) == plain
    ensures 13 <= lsn ==> Decode(lsn, plain) == plain && Decode(lsn, Encode(plain, key)) == Encode(plain, key)
  {
    var e := Encode(plain, key);
    DecodeByteInverts(0, key);
    if lsn < 13 {
      assert e[0] == key;
      var d := Decode(lsn, e);
      forall i | 0 <= i < |plain|
        ensures d[i] == plain[i]
      {
        DecodeByteInverts(plain[i], key);
      }
    }
  }

  /** n sectors from lsn on as a caller receives them when they are read c at a time. */
  function Pieces(disc: nat -> Byte, lsn: nat, n: nat, c: nat): (b: seq<Byte>)
    requires 0 < c
    ensures |b| == 2048 * n
    decreases n
  {
    if n == 0 then []
    else
      var k := if n > c then c else n;
      Piece(disc, lsn, k) + Pieces(disc, lsn + k, n - k, c)
  }

  // From sector 13 on there is nothing to decode, so the piece size cannot matter.
  lemma {:induction false} PiecesPlain(disc: nat -> Byte, lsn: nat, n: nat, c: nat)
    requires 0 < c && LOGO_SECTORS <= lsn
    ensures Pieces(disc, lsn, n, c) == Bytes(disc, 2048 * lsn, 2048 * n)
    decreases n
  {
    if n > 0 {
      var k := if n > c then c else n;
      PiecesPlain(disc, lsn + k, n - k, c);
      BytesSplit(disc, 2048 * lsn, 2048 * k, 2048 * (n - k));
    }
  }

  /** Exactly when the piece size is invisible, whatever is on the disc: past the logo, or when one piece
      is enough. */
  lemma PieceSizeInvisibleIff(lsn: nat, n: nat, c: nat)
    requires 0 < c && 0 < n
    ensures (forall disc: nat -> Byte :: Pieces(disc, lsn, n, c) == Pieces(disc, lsn, n, n))
            <==> (LOGO_SECTORS <= lsn || n <= c)
  {
    if LOGO_SECTORS <= lsn {
      forall disc: nat -> Byte
        ensures Pieces(disc, lsn, n, c) == Pieces(disc, lsn, n, n)
      {
        PiecesPlain(disc, lsn, n, c);
        PiecesPlain(disc, lsn, n, n);
      }
    } else if n <= c {
      forall disc: nat -> Byte
        ensures Pieces(disc, lsn, n, c) == Pieces(disc, lsn, n, n)
      {
        assert Pieces(disc, lsn + n, 0, c) == Pieces(disc, lsn + n, 0, n) == [];
      }
    } else {
      var disc := LogoDisc(lsn);
      SecondKeyDiffers(lsn, n, c);
      assert Pieces(disc, lsn, n, c) != Pieces(disc, lsn, n, n);
    }
  }

  // A disc that is zero but for the first byte of one sector.
  function LogoDisc(lsn: nat): nat -> Byte {
    i => if i == 2048 * lsn then 1 else 0
  }

  // Read whole, sector lsn + c is decoded with the key 1; read in pieces, its own key is 0.
  lemma SecondKeyDiffers(lsn: nat, n: nat, c: nat)
    requires 0 < c < n && lsn < LOGO_SECTORS
    ensures Pieces(LogoDisc(lsn), lsn, n, n)[2048 * c] == 8
    ensures Pieces(LogoDisc(lsn), lsn, n, c)[2048 * c] == 0
  {
    var disc := LogoDisc(lsn);
    var whole := Bytes(disc, 2048 * lsn, 2048 * n);
    assert whole[0] == 1 && whole[2048 * c] == 0;
    assert Pieces(disc, lsn, n, n) == Decode(lsn, whole) + [];
    assert DecodeByte(0, 1) == 8;
    var k := if n - c > c then c else n - c;
    var second := Bytes(disc, 2048 * (lsn + c), 2048 * k);
    assert second[0] == 0;
    assert Pieces(disc, lsn + c, n - c, c)[0] == Decode(lsn + c, second)[0] == 0;
    assert Pieces(disc, lsn, n, c)[2048 * c] == Pieces(disc, lsn + c, n - c, c)[0];
  }

  // ---- the read functions ----------------------------------------------------------------------

  const CDVD_ERR_NO := 0
  const CDVD_ERR_ABRT := 0x01
  const CDVD_ERR_READ := 0x30

  // No sector of the range is one the device fails to read.
  ghost predicate Readable(bad: set<nat>, lsn: nat, n: nat) {
    forall i :: lsn <= i < lsn + n ==> i !in bad
  }

  lemma ReadableSplit(bad: set<nat>, lsn: nat, n: nat, m: nat)
    ensures Readable(bad, lsn, n + m) <==> Readable(bad, lsn, n) && Readable(bad, lsn + n, m)
  {
  }

  // s without what is in [at, at + n).
  function Masked(s: seq<Byte>, at: nat, n: nat): (m: seq<Byte>)
    ensures |m| == |s|
  {
    seq(|s|, i requires 0 <= i < |s| => if at <= i < at + n then 0 else s[i])
  }

  lemma MaskedMore(at: nat, n: nat, m: nat, was: seq<Byte>, mid: seq<Byte>, now: seq<Byte>)
    requires Masked(was, at, n) == Masked(mid, at, n) && Masked(mid, at + n, m) == Masked(now, at + n, m)
    ensures Masked(was, at, n + m) == Masked(now, at, n + m)
  {
    var x, y := Masked(was, at, n + m), Masked(now, at, n + m);
    forall i | 0 <= i < |was|
      ensures x[i] == y[i]
    {
      if !(at <= i < at + n + m) {
        assert Masked(was, at, n)[i] == Masked(mid, at, n)[i];
        assert Masked(mid, at + n, m)[i] == Masked(now, at + n, m)[i];
      }
    }
  }

  // x has gone to position `at`, if it could be read; outside its place nothing has changed.
  ghost predicate Got(readable: bool, at: nat, x: seq<Byte>, was: seq<Byte>, now: seq<Byte>) {
    && at + |x| <= |was| && Masked(was, at, |x|) == Masked(now, at, |x|)
    && (readable ==> now == Splice(was, at, x))
  }

  lemma GotMore(first: bool, second: bool, at: nat, x: seq<Byte>, y: seq<Byte>, was: seq<Byte>, mid: seq<Byte>, now: seq<Byte>)
    requires Got(first, at, x, was, mid) && Got(second, at + |x|, y, mid, now)
    ensures Got(first && second, at, x + y, was, now)
  {
    MaskedMore(at, |x|, |y|, was, mid, now);
    if first && second {
      SpliceTwice(was, at, x, y);
    }
  }

  // A failed read may also have written less than it should.
  lemma GotLess(at: nat, x: seq<Byte>, y: seq<Byte>, was: seq<Byte>, now: seq<Byte>)
    requires Got(false, at, x, was, now) && |x| <= |y| && at + |y| <= |was|
    ensures Got(false, at, y, was, now)
  {
    MaskedMore(at, |x|, |y| - |x|, was, now, now);
  }

  // The device read under all this. When it fails it may have written any part of its target.
  method DeviceReadSectors(disc: nat -> Byte, bad: set<nat>, lsn: nat, buf: array<Byte>, at: nat, n: nat, ghost was: seq<Byte>)
    returns (res: int)
    requires at + 2048 * n <= buf.Length && was == buf[..]
    modifies buf
    ensures res == 0 <==> Readable(bad, lsn, n)
    ensures Got(res == 0, at, Bytes(disc, 2048 * lsn, 2048 * n), was, buf[..])
  {
    res := 0;
    for i := 0 to n
      invariant res == 0 <==> Readable(bad, lsn, i)
    {
      if lsn + i in bad {
        res := -5;
      }
    }
    ReadBytes(disc, 2048 * lsn, 2048 * n, buf, at);
  }

  // The logo decoder, in place.
  method DecodeInPlace(lsn: nat, buf: array<Byte>, at: nat, n: nat)
    requires at + 2048 * n <= buf.Length && 0 < n
    modifies buf
    ensures buf[..] == Splice(old(buf[..]), at, Decode(lsn, old(buf[at..at + 2048 * n])))
  {
    ghost var was, piece := buf[..], buf[at..at + 2048 * n];
    if lsn < LOGO_SECTORS {
      var key := buf[at];
      assert key == piece[0];
      if buf[at] != 0 {
        ghost var decoded := Decode(lsn, piece);
        ghost var now := Splice(was, at, decoded);
        for j := 0 to 2048 * n
          invariant forall k: nat :: k < at + j ==> buf[k] == now[k]
          invariant forall k: nat :: at + j <= k < buf.Length ==> buf[k] == was[k]
        {
          assert piece[j] == was[at + j] && now[at + j] == decoded[j];
          buf[at + j] := buf[at + j] ^ key;
          buf[at + j] := (buf[at + j] << 3) | (buf[at + j] >> 5);
        }
      }
    }
  }

  // One transfer of the loop below.
  method ReadPiece(disc: nat -> Byte, bad: set<nat>, lsn: nat, buf: array<Byte>, at: nat, n: nat, ghost was: seq<Byte>)
    returns (res: int)
    requires at + 2048 * n <= buf.Length && 0 < n && was == buf[..]
    modifies buf
    ensures res == 0 <==> Readable(bad, lsn, n)
    ensures Got(Readable(bad, lsn, n), at, Piece(disc, lsn, n), was, buf[..])
  {
    ghost var raw := Bytes(disc, 2048 * lsn, 2048 * n);
    res := DeviceReadSectors(disc, bad, lsn, buf, at, n, was);
    if res == 0 {
      assert buf[at..at + 2048 * n] == raw;
      DecodeInPlace(lsn, buf, at, n);
      assert buf[..] == Splice(was, at, Decode(lsn, raw));
    }
  }

  function PieceSize(accurate: bool, remaining: nat): nat {
    if accurate && remaining > ACCURATE_SECTORS then ACCURATE_SECTORS else remaining
  }

  // `done` is what n sectors read c at a time begin with when `remaining` of them are still to come.
  ghost predicate InPieces(disc: nat -> Byte, lsn: nat, n: nat, c: nat, remaining: nat, done: seq<Byte>) {
    && 0 < c && remaining <= n && |done| == 2048 * (n - remaining)
    && done + Pieces(disc, lsn + (n - remaining), remaining, c) == Pieces(disc, lsn, n, c)
  }

  lemma OnePiece(disc: nat -> Byte, lsn: nat, n: nat, c: nat, remaining: nat, k: nat, from: nat, done: seq<Byte>)
    requires InPieces(disc, lsn, n, c, remaining, done) && 0 < remaining
    requires k == (if remaining > c then c else remaining) && from == lsn + (n - remaining)
    ensures InPieces(disc, lsn, n, c, remaining - k, done + Piece(disc, from, k))
  {
    var piece, rest := Piece(disc, from, k), Pieces(disc, from + k, remaining - k, c);
    assert Pieces(disc, from, remaining, c) == piece + rest;
    Regroup(done, piece, rest);
    assert from + k == lsn + (n - (remaining - k));
  }

  // The state of a loop over pieces with `left` sectors to go: what it has read so far is in its place.
  ghost predicate Under(disc: nat -> Byte, bad: set<nat>, lsn: nat, n: nat, c: nat, left: nat, at: nat,
                        done: seq<Byte>, was: seq<Byte>, now: seq<Byte>)
  {
    InPieces(disc, lsn, n, c, left, done) && Got(Readable(bad, lsn, n - left), at, done, was, now)
  }

  lemma UnderMore(disc: nat -> Byte, bad: set<nat>, lsn: nat, n: nat, c: nat, left: nat, from: nat, k: nat, at: nat, ptr: nat,
                  done: seq<Byte>, was: seq<Byte>, mid: seq<Byte>, now: seq<Byte>)
    returns (more: seq<Byte>)
    requires Under(disc, bad, lsn, n, c, left, at, done, was, mid) && 0 < left
    requires k == (if left > c then c else left) && from == lsn + (n - left) && ptr == at + |done|
    requires Got(Readable(bad, from, k), ptr, Piece(disc, from, k), mid, now)
    ensures Under(disc, bad, lsn, n, c, left - k, at, more, was, now) && |more| == |done| + 2048 * k
    ensures Readable(bad, lsn, n - (left - k)) <==> Readable(bad, lsn, n - left) && Readable(bad, from, k)
  {
    var piece := Piece(disc, from, k);
    more := done + piece;
    OnePiece(disc, lsn, n, c, left, k, from, done);
    GotFurther(bad, lsn, n - left, k, n - (left - k), at, done, piece, was, mid, now);
  }

  lemma GotFurther(bad: set<nat>, lsn: nat, n: nat, k: nat, m: nat, at: nat, done: seq<Byte>, piece: seq<Byte>,
                   was: seq<Byte>, mid: seq<Byte>, now: seq<Byte>)
    requires Got(Readable(bad, lsn, n), at, done, was, mid) && Got(Readable(bad, lsn + n, k), at + |done|, piece, mid, now)
    requires m == n + k
    ensures Got(Readable(bad, lsn, m), at, done + piece, was, now)
    ensures Readable(bad, lsn, m) <==> Readable(bad, lsn, n) && Readable(bad, lsn + n, k)
  {
    var before, here := Readable(bad, lsn, n), Readable(bad, lsn + n, k);
    GotMore(before, here, at, done, piece, was, mid, now);
    ReadableSplit(bad, lsn, n, k);
  }

  // A read that failed before the first g sectors were there.
  lemma UnderFailed(disc: nat -> Byte, bad: set<nat>, lsn: nat, n: nat, c: nat, left: nat, g: nat, at: nat,
                    done: seq<Byte>, was: seq<Byte>, now: seq<Byte>)
    requires Under(disc, bad, lsn, n, c, left, at, done, was, now) && at + 2048 * n <= |was|
    requires !Readable(bad, lsn, n - left) && n - left <= g <= n
    ensures !Readable(bad, lsn, g) && Got(false, at, Pieces(disc, lsn, n, c)[..2048 * g], was, now)
  {
    ReadableSplit(bad, lsn, n - left, g - (n - left));
    GotLess(at, done, Pieces(disc, lsn, n, c)[..2048 * g], was, now);
  }

  function PiecesOf(accurate: bool, sectors: nat): nat {
    if accurate then ACCURATE_SECTORS else sectors + 1
  }

  // What has been read so far is what the pieces begin with.
  lemma PiecesBegin(disc: nat -> Byte, lsn: nat, n: nat, c: nat, left: nat, done: seq<Byte>)
    requires InPieces(disc, lsn, n, c, left, done)
    ensures done == Pieces(disc, lsn, n, c)[..2048 * (n - left)]
  {
    var rest := Pieces(disc, lsn + (n - left), left, c);
    assert done == (done + rest)[..|done|];
  }

  // ---- breaks ----------------------------------------------------------------------------------------

  /* A read tests the error before each of its pieces. breaks(k) says that test k, counted from 0 over the whole
     read, finds the error of a break; with one index more, that a break lands behind the last test. */

  // How many of n sectors come, c at a time, from test k on: the first break that is seen ends the loop.
  function Come(breaks: nat -> bool, c: nat, n: nat, k: nat): (g: nat)
    requires 0 < c
    ensures g <= n
    decreases n
  {
    if n == 0 || breaks(k) then 0
    else if n <= c then n
    else c + Come(breaks, c, n - c, k + 1)
  }

  // How many pieces, and so tests, n sectors take.
  function Tests(c: nat, n: nat): nat
    requires 0 < c
    decreases n
  {
    if n == 0 then 0 else if n <= c then 1 else 1 + Tests(c, n - c)
  }

  /** No break is seen by a test before one of n sectors read c at a time. */
  ghost predicate Uncut(breaks: nat -> bool, c: nat, n: nat) {
    UncutFrom(breaks, c, n, 0)
  }

  ghost predicate UncutFrom(breaks: nat -> bool, c: nat, n: nat, k: nat) {
    forall j: nat :: k <= j && c * (j - k) < n ==> !breaks(j)
  }

  // The first m sectors come exactly when no test before one of them sees a break.
  lemma {:induction false} ComeIff(breaks: nat -> bool, c: nat, n: nat, m: nat, k: nat)
    requires 0 < c && m <= n
    ensures m <= Come(breaks, c, n, k) <==> UncutFrom(breaks, c, m, k)
    decreases n
  {
    if m > 0 {
      UncutNext(breaks, c, m, k);
      if m > c {
        ComeIff(breaks, c, n - c, m - c, k + 1);
      }
    }
  }

  lemma UncutNext(breaks: nat -> bool, c: nat, n: nat, k: nat)
    requires 0 < c && 0 < n
    ensures UncutFrom(breaks, c, n, k) <==> !breaks(k) && (n > c ==> UncutFrom(breaks, c, n - c, k + 1))
  {
    if UncutFrom(breaks, c, n, k) {
      assert c * (k - k) == 0;
      forall j: nat | n > c && k + 1 <= j && c * (j - (k + 1)) < n - c
        ensures !breaks(j)
      {
        assert c * (j - k) == c * (j - (k + 1)) + c;
      }
    } else {
      var j: nat :| k <= j && c * (j - k) < n && breaks(j);
      if j > k {
        assert c * (j - k) == c * (j - (k + 1)) + c;
        MoreThanNone(c, j - (k + 1));
      }
    }
  }

  lemma MoreThanNone(c: nat, j: nat)
    ensures 0 <= c * j
  {
  }

  /** What becomes of a read of n sectors, c at a time: those before the first test that sees a break come. A read
      error says that one of them cannot be read, success that all n came and no break landed. */
  ghost predicate SectorsRead(err: int, disc: nat -> Byte, bad: set<nat>, breaks: nat -> bool, c: nat, lsn: nat, n: nat, at: nat,
                              was: seq<Byte>, now: seq<Byte>)
    requires 0 < c
  {
    var g := Come(breaks, c, n, 0);
    && (err == CDVD_ERR_READ <==> !Readable(bad, lsn, g))
    && (err == CDVD_ERR_NO <==> Readable(bad, lsn, g) && g == n && !breaks(Tests(c, n)))
    && (err == CDVD_ERR_NO || err == CDVD_ERR_READ || err == CDVD_ERR_ABRT)
    && Got(Readable(bad, lsn, g), at, Pieces(disc, lsn, n, c)[..2048 * g], was, now)
  }

  // The state of the loop before test k.
  ghost predicate Reading(disc: nat -> Byte, bad: set<nat>, breaks: nat -> bool, c: nat, lsn: nat, n: nat, left: nat, k: nat, at: nat,
                          done: seq<Byte>, was: seq<Byte>, now: seq<Byte>)
    requires 0 < c
  {
    && Under(disc, bad, lsn, n, c, left, at, done, was, now) && Readable(bad, lsn, n - left)
    && Leaves(breaks, c, n, left, k)
  }

  lemma ReadingStarts(disc: nat -> Byte, bad: set<nat>, breaks: nat -> bool, c: nat, lsn: nat, n: nat, at: nat, was: seq<Byte>)
    requires 0 < c && at + 2048 * n <= |was|
    ensures Reading(disc, bad, breaks, c, lsn, n, n, 0, at, [], was, was)
  {
    assert Splice(was, at, []) == was;
  }

  lemma ComeNext(breaks: nat -> bool, c: nat, n: nat, left: nat, m: nat, k: nat)
    requires 0 < c && 0 < left <= n && !breaks(k) && m == (if left > c then c else left)
    ensures Come(breaks, c, left, k) == m + Come(breaks, c, left - m, k + 1) && Tests(c, left) == 1 + Tests(c, left - m)
  {
  }

  // What the breaks leave of the read, seen from test k: it does not change while the loop goes on.
  predicate Leaves(breaks: nat -> bool, c: nat, n: nat, left: nat, k: nat)
    requires 0 < c
  {
    left <= n && n - left + Come(breaks, c, left, k) == Come(breaks, c, n, 0) && k + Tests(c, left) == Tests(c, n)
  }

  lemma LeavesMore(breaks: nat -> bool, c: nat, n: nat, left: nat, m: nat, k: nat)
    requires 0 < c && 0 < left && !breaks(k) && m == (if left > c then c else left) && Leaves(breaks, c, n, left, k)
    ensures Leaves(breaks, c, n, left - m, k + 1)
  {
    ComeNext(breaks, c, n, left, m, k);
  }

  lemma ReadingNext(disc: nat -> Byte, bad: set<nat>, breaks: nat -> bool, c: nat, lsn: nat, n: nat, left: nat, k: nat, at: nat,
                    done: seq<Byte>, was: seq<Byte>, now: seq<Byte>)
    requires Under(disc, bad, lsn, n, c, left, at, done, was, now) && Readable(bad, lsn, n - left)
    requires Leaves(breaks, c, n, left, k)
    ensures Reading(disc, bad, breaks, c, lsn, n, left, k, at, done, was, now)
  {
  }

  lemma ReadingFails(disc: nat -> Byte, bad: set<nat>, breaks: nat -> bool, c: nat, lsn: nat, n: nat, left: nat, k: nat, at: nat,
                     done: seq<Byte>, was: seq<Byte>, now: seq<Byte>)
    requires Under(disc, bad, lsn, n, c, left, at, done, was, now) && at + 2048 * n <= |was|
    requires !Readable(bad, lsn, n - left) && Leaves(breaks, c, n, left, k)
    ensures SectorsRead(CDVD_ERR_READ, disc, bad, breaks, c, lsn, n, at, was, now)
  {
    UnderFailed(disc, bad, lsn, n, c, left, Come(breaks, c, n, 0), at, done, was, now);
  }

  lemma ReadingEnds(disc: nat -> Byte, bad: set<nat>, breaks: nat -> bool, c: nat, lsn: nat, n: nat, left: nat, k: nat, at: nat,
                    done: seq<Byte>, was: seq<Byte>, now: seq<Byte>)
    requires 0 < c && Reading(disc, bad, breaks, c, lsn, n, left, k, at, done, was, now) && (left == 0 || breaks(k))
    ensures SectorsRead(if breaks(k) then CDVD_ERR_ABRT else CDVD_ERR_NO, disc, bad, breaks, c, lsn, n, at, was, now)
  {
    PiecesBegin(disc, lsn, n, c, left, done);
  }

  /** cdvdman_read_sectors: the sectors asked for, read in pieces of at most 8 when timing is emulated, up to the
      first test that sees a break. Nothing behind those is touched. */
  method cdvdman_read_sectors(disc: nat -> Byte, bad: set<nat>, breaks: nat -> bool, accurate: bool, lsn0: nat, sectors: nat,
                              buf: array<Byte>, at: nat, ghost was: seq<Byte>)
    returns (err: int)
    requires at + 2048 * sectors <= buf.Length && was == buf[..]
    modifies buf
    ensures SectorsRead(err, disc, bad, breaks, PiecesOf(accurate, sectors), lsn0, sectors, at, was, buf[..])
  {
    ghost var c, done := PiecesOf(accurate, sectors), [];
    ReadingStarts(disc, bad, breaks, c, lsn0, sectors, at, was);
    err := if breaks(0) then CDVD_ERR_ABRT else CDVD_ERR_NO;
    var lsn: nat, ptr: nat, remaining: nat, k: nat := lsn0, at, sectors, 0;
    while remaining > 0
      invariant remaining <= sectors && lsn == lsn0 + (sectors - remaining)
      invariant |done| == 2048 * (sectors - remaining) && ptr == at + |done|
      invariant err == if breaks(k) then CDVD_ERR_ABRT else CDVD_ERR_NO
      invariant Reading(disc, bad, breaks, c, lsn0, sectors, remaining, k, at, done, was, buf[..])
    {
      if err != CDVD_ERR_NO {
        break;
      }
      var SectorsToRead := PieceSize(accurate, remaining);
      ghost var mid := buf[..];
      var res := ReadPiece(disc, bad, lsn, buf, ptr, SectorsToRead, mid);
      done := UnderMore(disc, bad, lsn0, sectors, c, remaining, lsn, SectorsToRead, at, ptr, done, was, mid, buf[..]);
      LeavesMore(breaks, c, sectors, remaining, SectorsToRead, k);
      if res != 0 {
        ReadingFails(disc, bad, breaks, c, lsn0, sectors, remaining - SectorsToRead, k + 1, at, done, was, buf[..]);
        return CDVD_ERR_READ;
      }
      ReadingNext(disc, bad, breaks, c, lsn0, sectors, remaining - SectorsToRead, k + 1, at, done, was, buf[..]);
      k := k + 1;
      ptr := ptr + 2048 * SectorsToRead;
      remaining := remaining - SectorsToRead;
      lsn := lsn + SectorsToRead;
      if breaks(k) {
        err := CDVD_ERR_ABRT;
      }
    }
    ReadingEnds(disc, bad, breaks, c, lsn0, sectors, remaining, k, at, done, was, buf[..]);
  }

  // The size of the last piece when n sectors are bounced.
  function LastPiece(n: nat): nat {
    if n % 2 == 0 then 2 else 1
  }

  // The bounce buffer after a piece has been read into it, or after a break has kept it out.
  function Bounce(cut: bool, piece: seq<Byte>, bounce: seq<Byte>): (b: seq<Byte>)
    requires |piece| <= |bounce|
    ensures |b| == |bounce|
  {
    if cut then bounce else piece + bounce[|piece|..]
  }

  // How many of n sectors the first k bounced pieces hold, and the size of piece k.
  function Before(n: nat, k: nat): nat {
    if 2 * k < n then 2 * k else n
  }

  function SizeAt(n: nat, k: nat): (m: nat)
    ensures m <= 2
  {
    Before(n, k + 1) - Before(n, k)
  }

  // What the bounce buffer holds after k pieces, and what has been copied out of it by then.
  function Held(disc: nat -> Byte, breaks: nat -> bool, lsn: nat, n: nat, k: nat, bounce: seq<Byte>): (b: seq<Byte>)
    requires |bounce| == 4096
    ensures |b| == 4096
  {
    if k == 0 then bounce
    else Bounce(breaks(k - 1), Piece(disc, lsn + Before(n, k - 1), SizeAt(n, k - 1)), Held(disc, breaks, lsn, n, k - 1, bounce))
  }

  function Copied(disc: nat -> Byte, breaks: nat -> bool, lsn: nat, n: nat, k: nat, bounce: seq<Byte>): (b: seq<Byte>)
    requires |bounce| == 4096
    ensures |b| == 2048 * Before(n, k)
  {
    if k == 0 then []
    else Copied(disc, breaks, lsn, n, k - 1, bounce) + Held(disc, breaks, lsn, n, k, bounce)[..2048 * SizeAt(n, k - 1)]
  }

  /** What a bounced read of n sectors copies out in all when the bounce buffer held `bounce` before: a piece that a
      break has cut brings along what the buffer happened to hold. */
  function Bounced(disc: nat -> Byte, breaks: nat -> bool, lsn: nat, n: nat, bounce: seq<Byte>): (b: seq<Byte>)
    requires |bounce| == 4096
    ensures |b| == 2048 * n
  {
    Copied(disc, breaks, lsn, n, BouncePieces(n), bounce)
  }

  function BouncePieces(n: nat): nat {
    (n + 1) / 2
  }

  // One turn of the bounce loop, with test p: read a piece into the bounce buffer and copy it out, read or not.
  method BouncePiece(disc: nat -> Byte, bad: set<nat>, breaks: nat -> bool, p: nat, accurate: bool, rpos: nat, nsectors: nat,
                     cdvdman_buf: array<Byte>, buf: array<Byte>, at: nat, ghost was: seq<Byte>, ghost bounce: seq<Byte>)
    returns (err: int)
    requires cdvdman_buf.Length == 4096 && cdvdman_buf != buf
    requires 0 < nsectors <= BOUNCE_SECTORS && at + 2048 * nsectors <= buf.Length && was == buf[..] && bounce == cdvdman_buf[..]
    modifies cdvdman_buf, buf
    ensures PieceReported(err, bad, breaks, p, rpos, nsectors)
    ensures Readable(bad, rpos, nsectors) ==> cdvdman_buf[..] == Bounce(breaks(p), Piece(disc, rpos, nsectors), bounce)
    ensures buf[..] == Splice(was, at, cdvdman_buf[..2048 * nsectors])
  {
    var own := (i: nat) => breaks(p + i);
    err := cdvdman_read_sectors(disc, bad, own, accurate, rpos, nsectors, cdvdman_buf, 0, bounce);
    SinglePiece(err, disc, bad, own, PiecesOf(accurate, nsectors), rpos, nsectors, bounce, cdvdman_buf[..]);
    assert buf[..] == was;
    CopyOut(cdvdman_buf, 0, buf, at, 2048 * nsectors);
    assert cdvdman_buf[0..2048 * nsectors] == cdvdman_buf[..2048 * nsectors];
  }

  // The error behind a piece: it was read, or could not be read, or a break kept it out or landed behind it.
  ghost predicate PieceReported(err: int, bad: set<nat>, breaks: nat -> bool, p: nat, lsn: nat, n: nat) {
    && (err == CDVD_ERR_NO || err == CDVD_ERR_READ || err == CDVD_ERR_ABRT)
    && (err == CDVD_ERR_READ <==> !breaks(p) && !Readable(bad, lsn, n))
    && (err == CDVD_ERR_NO <==> !breaks(p) && Readable(bad, lsn, n) && !breaks(p + 1))
  }

  // A read that is one piece, into the bounce buffer.
  lemma SinglePiece(err: int, disc: nat -> Byte, bad: set<nat>, own: nat -> bool, c: nat, lsn: nat, n: nat, was: seq<Byte>, now: seq<Byte>)
    requires 0 < n <= c && SectorsRead(err, disc, bad, own, c, lsn, n, 0, was, now) && 2048 * n <= |was|
    ensures PieceReported(err, bad, own, 0, lsn, n)
    ensures Readable(bad, lsn, n) ==> now == Bounce(own(0), Piece(disc, lsn, n), was)
  {
    var piece := Piece(disc, lsn, n);
    assert Pieces(disc, lsn, n, c) == piece + Pieces(disc, lsn + n, 0, c) == piece;
    assert Come(own, c, n, 0) == (if own(0) then 0 else n) && Tests(c, n) == 1;
    if own(0) {
      NothingGot(0, piece[..0], was, now);
    } else if Readable(bad, lsn, n) {
      assert piece[..2048 * n] == piece;
      SpliceFirst(was, piece);
    }
  }

  lemma SpliceFirst(s: seq<Byte>, x: seq<Byte>)
    requires |x| <= |s|
    ensures Splice(s, 0, x) == x + s[|x|..]
  {
  }

  lemma NothingGot(at: nat, x: seq<Byte>, was: seq<Byte>, now: seq<Byte>)
    requires Got(true, at, x, was, now) && x == []
    ensures now == was
  {
  }

  // The bounce loop before piece k.
  ghost predicate Bouncing(disc: nat -> Byte, breaks: nat -> bool, lsn: nat, n: nat, k: nat, bounce: seq<Byte>,
                           held: seq<Byte>, data: seq<Byte>)
    requires |bounce| == 4096
  {
    held == Held(disc, breaks, lsn, n, k, bounce) && data == Copied(disc, breaks, lsn, n, k, bounce)
  }

  lemma BouncingMore(disc: nat -> Byte, breaks: nat -> bool, lsn: nat, n: nat, k: nat, bounce: seq<Byte>,
                     held: seq<Byte>, held': seq<Byte>, data: seq<Byte>)
    requires |bounce| == 4096 && Bouncing(disc, breaks, lsn, n, k, bounce, held, data)
    requires held' == Bounce(breaks(k), Piece(disc, lsn + Before(n, k), SizeAt(n, k)), held)
    ensures Bouncing(disc, breaks, lsn, n, k + 1, bounce, held', data + held'[..2048 * SizeAt(n, k)])
  {
  }

  // The state of the loop before piece k, with `left` sectors to go.
  ghost predicate Bounces(disc: nat -> Byte, bad: set<nat>, breaks: nat -> bool, lsn: nat, n: nat, left: nat, k: nat, at: nat,
                          bounce: seq<Byte>, held: seq<Byte>, data: seq<Byte>, was: seq<Byte>, now: seq<Byte>)
    requires |bounce| == 4096
  {
    && left == n - Before(n, k) && k <= BouncePieces(n)
    && |data| == 2048 * (n - left) && now == Splice(was, at, data)
    && (Readable(bad, lsn, n - left) ==> Bouncing(disc, breaks, lsn, n, k, bounce, held, data))
  }

  lemma LastTurn(n: nat, left: nat, k: nat)
    requires left == n - Before(n, k) && 0 < left <= 2
    ensures k + 1 == BouncePieces(n) && left == LastPiece(n)
  {
  }

  lemma BouncesMore(disc: nat -> Byte, bad: set<nat>, breaks: nat -> bool, lsn: nat, n: nat, left: nat, k: nat, m: nat, at: nat,
                    bounce: seq<Byte>, held: seq<Byte>, held': seq<Byte>, data: seq<Byte>,
                    was: seq<Byte>, mid: seq<Byte>, now: seq<Byte>)
    requires |bounce| == |held| == |held'| == 4096 && at + 2048 * n <= |was|
    requires Bounces(disc, bad, breaks, lsn, n, left, k, at, bounce, held, data, was, mid) && 0 < left
    requires m == (if left > 2 then 2 else left)
    requires Readable(bad, lsn + (n - left), m) ==> held' == Bounce(breaks(k), Piece(disc, lsn + (n - left), m), held)
    requires now == Splice(mid, at + |data|, held'[..2048 * m])
    ensures Bounces(disc, bad, breaks, lsn, n, left - m, k + 1, at, bounce, held', data + held'[..2048 * m], was, now)
  {
    var x := held'[..2048 * m];
    ReadableSplit(bad, lsn, n - left, m);
    assert n - (left - m) == n - left + m && m == SizeAt(n, k);
    if Readable(bad, lsn, n - left + m) {
      BouncingMore(disc, breaks, lsn, n, k, bounce, held, held', data);
    }
    SpliceTwice(was, at, data, x);
  }

  // A turn of the bounce loop, seen from the whole read.
  method BounceTurn(disc: nat -> Byte, bad: set<nat>, breaks: nat -> bool, p: nat, accurate: bool, rpos: nat, nsectors: nat,
                    cdvdman_buf: array<Byte>, buf: array<Byte>, ptr: nat, ghost lsn: nat, ghost sectors: nat, ghost left: nat,
                    ghost at: nat, ghost data0: seq<Byte>, ghost was: seq<Byte>, ghost bounce: seq<Byte>)
    returns (err: int, ghost data: seq<Byte>)
    requires cdvdman_buf.Length == |bounce| == 4096 && cdvdman_buf != buf && at + 2048 * sectors <= buf.Length == |was|
    requires 0 < left <= sectors && nsectors == (if left > 2 then 2 else left)
    requires rpos == lsn + (sectors - left) && ptr == at + |data0| && |data0| == 2048 * (sectors - left)
    requires Bounces(disc, bad, breaks, lsn, sectors, left, p, at, bounce, cdvdman_buf[..], data0, was, buf[..])
    modifies cdvdman_buf, buf
    ensures |data| == |data0| + 2048 * nsectors
    ensures Bounces(disc, bad, breaks, lsn, sectors, left - nsectors, p + 1, at, bounce, cdvdman_buf[..], data, was, buf[..])
    ensures left == nsectors ==> p + 1 == BouncePieces(sectors) && LastReported(err, bad, breaks, lsn, sectors)
  {
    ghost var mid, held := buf[..], cdvdman_buf[..];
    err := BouncePiece(disc, bad, breaks, p, accurate, rpos, nsectors, cdvdman_buf, buf, ptr, mid, held);
    data := data0 + cdvdman_buf[..2048 * nsectors];
    BouncesMore(disc, bad, breaks, lsn, sectors, left, p, nsectors, at, bounce, held, cdvdman_buf[..], data0, was, mid, buf[..]);
    if left == nsectors {
      LastTurn(sectors, left, p);
      LastOf(err, bad, breaks, lsn, sectors, p, rpos, nsectors);
    }
  }

  // The bounced form of cdvdman_read.
  method ReadBounced(disc: nat -> Byte, bad: set<nat>, breaks: nat -> bool, accurate: bool, lsn: nat, sectors: nat,
                     buf: array<Byte>, at: nat, cdvdman_buf: array<Byte>, err0: int, ghost was: seq<Byte>, ghost bounce: seq<Byte>)
    returns (err: int, ghost data: seq<Byte>)
    requires cdvdman_buf.Length == 4096 && cdvdman_buf != buf
    requires at + 2048 * sectors <= buf.Length && was == buf[..] && bounce == cdvdman_buf[..]
    modifies buf, cdvdman_buf
    ensures sectors == 0 ==> err == err0
    ensures sectors > 0 ==> LastReported(err, bad, breaks, lsn, sectors)
    ensures |data| == 2048 * sectors && buf[..] == Splice(was, at, data)
    ensures Readable(bad, lsn, sectors) ==> data == Bounced(disc, breaks, lsn, sectors, bounce)
  {
    err, data := err0, [];
    var rpos: nat, ptr: nat, left: nat, p: nat := lsn, at, sectors, 0;
    while left > 0
      invariant left <= sectors && rpos == lsn + (sectors - left) && ptr == at + |data| && |data| == 2048 * (sectors - left)
      invariant Bounces(disc, bad, breaks, lsn, sectors, left, p, at, bounce, cdvdman_buf[..], data, was, buf[..])
      invariant left == sectors ==> err == err0
      invariant left == 0 < sectors ==> LastReported(err, bad, breaks, lsn, sectors)
      invariant left == 0 ==> p == BouncePieces(sectors)
    {
      var nsectors := if left > BOUNCE_SECTORS then BOUNCE_SECTORS else left;
      err, data := BounceTurn(disc, bad, breaks, p, accurate, rpos, nsectors, cdvdman_buf, buf, ptr,
                              lsn, sectors, left, at, data, was, bounce);
      p := p + 1;
      ptr := ptr + 2048 * nsectors;
      rpos := rpos + nsectors;
      left := left - nsectors;
    }
  }

  // The error of a bounced read tells what became of its last piece, and nothing about the others.
  ghost predicate LastReported(err: int, bad: set<nat>, breaks: nat -> bool, lsn: nat, sectors: nat)
    requires 0 < sectors
  {
    PieceReported(err, bad, breaks, BouncePieces(sectors) - 1, lsn + sectors - LastPiece(sectors), LastPiece(sectors))
  }

  lemma LastOf(err: int, bad: set<nat>, breaks: nat -> bool, lsn: nat, n: nat, k: nat, from: nat, m: nat)
    requires 0 < n && k + 1 == BouncePieces(n) && m == LastPiece(n) && from == lsn + n - m
    requires PieceReported(err, bad, breaks, k, from, m)
    ensures LastReported(err, bad, breaks, lsn, n)
  {
  }

  /** So a bounced read that no break meets reports an unreadable sector, whichever it is, exactly when one piece is
      enough. */
  lemma LastTellsAllIff(lsn: nat, sectors: nat)
    requires 0 < sectors
    ensures (forall bad: set<nat> :: Readable(bad, lsn + sectors - LastPiece(sectors), LastPiece(sectors)) <==> Readable(bad, lsn, sectors))
            <==> sectors <= BOUNCE_SECTORS
  {
    if sectors > BOUNCE_SECTORS {
      var bad: set<nat> := {lsn};
      assert lsn in bad && !Readable(bad, lsn, sectors);
      assert Readable(bad, lsn + sectors - LastPiece(sectors), LastPiece(sectors));
    }
  }

  // How many sectors a piece has on each path.
  function PathPieces(aligned: bool, accurate: bool, sectors: nat): (c: nat)
    ensures 0 < c
  {
    if aligned then PiecesOf(accurate, sectors) else BOUNCE_SECTORS
  }

  /** What a read of readable sectors writes from the start of its target on: in the direct form the pieces before
      the first break that is seen, in the bounced form something for every piece. */
  function Comes(disc: nat -> Byte, breaks: nat -> bool, aligned: bool, accurate: bool, lsn: nat, n: nat, bounce: seq<Byte>): (b: seq<Byte>)
    requires |bounce| == 4096
    ensures |b| <= 2048 * n
  {
    if aligned then
      Pieces(disc, lsn, n, PiecesOf(accurate, n))[..2048 * Come(breaks, PiecesOf(accurate, n), n, 0)]
    else Bounced(disc, breaks, lsn, n, bounce)
  }

  /** cdvdman_read: a word-aligned buffer is read into directly; any other is bounced, two sectors at a time. Whatever
      breaks it meets, what arrives is Comes, and nothing outside the target changes. */
  method cdvdman_read(disc: nat -> Byte, bad: set<nat>, breaks: nat -> bool, accurate: bool, lsn: nat, sectors: nat,
                      buf: array<Byte>, at: nat, cdvdman_buf: array<Byte>, err0: int)
    returns (err: int)
    requires cdvdman_buf.Length == 4096 && cdvdman_buf != buf
    requires at + 2048 * sectors <= buf.Length
    modifies buf, cdvdman_buf
    ensures Readable(bad, lsn, sectors) ==>
      buf[..] == Splice(old(buf[..]), at, Comes(disc, breaks, at % 4 == 0, accurate, lsn, sectors, old(cdvdman_buf[..])))
    ensures Masked(buf[..], at, 2048 * sectors) == Masked(old(buf[..]), at, 2048 * sectors)
    ensures at % 4 == 0 ==>
      SectorsRead(err, disc, bad, breaks, PiecesOf(accurate, sectors), lsn, sectors, at, old(buf[..]), buf[..])
    ensures at % 4 != 0 && sectors > 0 ==> LastReported(err, bad, breaks, lsn, sectors)
    ensures at % 4 != 0 && sectors == 0 ==> err == err0
  {
    ghost var was := buf[..];
    if at % 4 != 0 {
      ghost var data;
      err, data := ReadBounced(disc, bad, breaks, accurate, lsn, sectors, buf, at, cdvdman_buf, err0, was, cdvdman_buf[..]);
      MaskedSplice(was, at, data, 2048 * sectors);
    } else {
      err := cdvdman_read_sectors(disc, bad, breaks, accurate, lsn, sectors, buf, at, was);
      ghost var g := Come(breaks, PiecesOf(accurate, sectors), sectors, 0);
      ReadableSplit(bad, lsn, g, sectors - g);
      MaskedMore(at, 2048 * g, 2048 * (sectors - g), was, buf[..], buf[..]);
    }
  }

  lemma MaskedSplice(s: seq<Byte>, at: nat, x: seq<Byte>, n: nat)
    requires |x| <= n
    ensures Masked(Splice(s, at, x), at, n) == Masked(s, at, n)
  {
    var y, z := Masked(Splice(s, at, x), at, n), Masked(s, at, n);
    assert forall i :: 0 <= i < |s| ==> y[i] == z[i];
  }

  /** Exactly when the first m of n sectors arrive, whatever is on the disc and was in the two buffers: when no test
      before one of their pieces sees a break. */
  lemma FirstComeIff(breaks: nat -> bool, aligned: bool, accurate: bool, lsn: nat, n: nat, m: nat)
    requires m <= n
    ensures var c := PathPieces(aligned, accurate, n);
      Uncut(breaks, c, m) <==>
      forall disc: nat -> Byte, bounce: seq<Byte>, was: seq<Byte> :: |bounce| == 4096 && 2048 * n <= |was| ==>
        Splice(was, 0, Comes(disc, breaks, aligned, accurate, lsn, n, bounce))[..2048 * m] == Pieces(disc, lsn, n, c)[..2048 * m]
  {
    var c := PathPieces(aligned, accurate, n);
    if Uncut(breaks, c, m) {
      forall disc: nat -> Byte, bounce: seq<Byte>, was: seq<Byte> | |bounce| == 4096 && 2048 * n <= |was|
        ensures Splice(was, 0, Comes(disc, breaks, aligned, accurate, lsn, n, bounce))[..2048 * m] == Pieces(disc, lsn, n, c)[..2048 * m]
      {
        UncutComes(disc, breaks, aligned, accurate, lsn, n, m, c, bounce);
        SpliceBegins(was, 0, Comes(disc, breaks, aligned, accurate, lsn, n, bounce), 2048 * m);
      }
    } else {
      var disc, bounce, was := CutWitness(breaks, aligned, accurate, lsn, n, m, c);
    }
  }

  lemma CutWitness(breaks: nat -> bool, aligned: bool, accurate: bool, lsn: nat, n: nat, m: nat, c: nat)
    returns (disc: nat -> Byte, bounce: seq<Byte>, was: seq<Byte>)
    requires c == PathPieces(aligned, accurate, n) && m <= n && !Uncut(breaks, c, m)
    ensures |bounce| == 4096 && 2048 * n <= |was|
    ensures Splice(was, 0, Comes(disc, breaks, aligned, accurate, lsn, n, bounce))[..2048 * m] != Pieces(disc, lsn, n, c)[..2048 * m]
  {
    var k: nat :| 0 <= k && c * (k - 0) < m && breaks(k);
    disc, bounce, was := CutShown(breaks, aligned, accurate, lsn, n, m, c, k);
  }

  lemma SpliceBegins(s: seq<Byte>, at: nat, x: seq<Byte>, n: nat)
    requires n <= |x| && at + |x| <= |s|
    ensures Splice(s, at, x)[at..at + n] == x[..n]
  {
  }

  lemma UncutComes(disc: nat -> Byte, breaks: nat -> bool, aligned: bool, accurate: bool, lsn: nat, n: nat, m: nat, c: nat,
                   bounce: seq<Byte>)
    requires |bounce| == 4096 && m <= n && c == PathPieces(aligned, accurate, n) && Uncut(breaks, c, m)
    ensures 2048 * m <= |Comes(disc, breaks, aligned, accurate, lsn, n, bounce)|
    ensures Comes(disc, breaks, aligned, accurate, lsn, n, bounce)[..2048 * m] == Pieces(disc, lsn, n, c)[..2048 * m]
  {
    if aligned {
      ComeIff(breaks, c, n, m, 0);
      Shorter(Pieces(disc, lsn, n, c), 2048 * m, 2048 * Come(breaks, c, n, 0));
    } else {
      UncutBounced(disc, breaks, lsn, n, m, bounce);
    }
  }

  lemma Shorter(s: seq<Byte>, m: nat, n: nat)
    requires m <= n <= |s|
    ensures s[..n][..m] == s[..m]
  {
  }

  lemma UncutBounced(disc: nat -> Byte, breaks: nat -> bool, lsn: nat, n: nat, m: nat, bounce: seq<Byte>)
    requires |bounce| == 4096 && m <= n && Uncut(breaks, 2, m)
    ensures Bounced(disc, breaks, lsn, n, bounce)[..2048 * m] == Pieces(disc, lsn, n, 2)[..2048 * m]
  {
    var k := BouncePieces(m);
    var part, all := Copied(disc, breaks, lsn, n, k, bounce), Bounced(disc, breaks, lsn, n, bounce);
    UncutCopied(disc, breaks, lsn, n, m, k, bounce);
    PiecesBegin(disc, lsn, n, 2, n - Before(n, k), part);
    CopiedStays(disc, breaks, lsn, n, k, BouncePieces(n), bounce);
    Shorter(all, 2048 * m, |part|);
    Shorter(Pieces(disc, lsn, n, 2), 2048 * m, |part|);
  }

  lemma {:induction false} UncutCopied(disc: nat -> Byte, breaks: nat -> bool, lsn: nat, n: nat, m: nat, k: nat, bounce: seq<Byte>)
    requires |bounce| == 4096 && m <= n && Uncut(breaks, 2, m) && k <= BouncePieces(m)
    ensures InPieces(disc, lsn, n, 2, n - Before(n, k), Copied(disc, breaks, lsn, n, k, bounce))
  {
    if k > 0 {
      UncutCopied(disc, breaks, lsn, n, m, k - 1, bounce);
      UncutAt(breaks, 2, m, k - 1);
      UncutPiece(disc, breaks, lsn, n, k - 1, bounce);
    }
  }

  lemma UncutAt(breaks: nat -> bool, c: nat, m: nat, k: nat)
    requires Uncut(breaks, c, m) && c * k < m
    ensures !breaks(k)
  {
    assert c * (k - 0) < m;
  }

  lemma UncutPiece(disc: nat -> Byte, breaks: nat -> bool, lsn: nat, n: nat, k: nat, bounce: seq<Byte>)
    requires |bounce| == 4096 && 2 * k < n && !breaks(k)
    requires InPieces(disc, lsn, n, 2, n - Before(n, k), Copied(disc, breaks, lsn, n, k, bounce))
    ensures InPieces(disc, lsn, n, 2, n - Before(n, k + 1), Copied(disc, breaks, lsn, n, k + 1, bounce))
  {
    CopiedPiece(disc, breaks, lsn, n, k, bounce);
    TwoMore(disc, lsn, n, k, Copied(disc, breaks, lsn, n, k, bounce));
  }

  lemma TwoMore(disc: nat -> Byte, lsn: nat, n: nat, k: nat, done: seq<Byte>)
    requires InPieces(disc, lsn, n, 2, n - Before(n, k), done) && 2 * k < n
    ensures InPieces(disc, lsn, n, 2, n - Before(n, k + 1), done + Piece(disc, lsn + Before(n, k), SizeAt(n, k)))
  {
    OnePiece(disc, lsn, n, 2, n - Before(n, k), SizeAt(n, k), lsn + Before(n, k), done);
    assert n - Before(n, k) - SizeAt(n, k) == n - Before(n, k + 1);
  }

  lemma CopiedPiece(disc: nat -> Byte, breaks: nat -> bool, lsn: nat, n: nat, k: nat, bounce: seq<Byte>)
    requires |bounce| == 4096 && !breaks(k)
    ensures Copied(disc, breaks, lsn, n, k + 1, bounce)
         == Copied(disc, breaks, lsn, n, k, bounce) + Piece(disc, lsn + Before(n, k), SizeAt(n, k))
  {
    var piece, b := Piece(disc, lsn + Before(n, k), SizeAt(n, k)), Held(disc, breaks, lsn, n, k, bounce);
    CopiedNext(disc, breaks, lsn, n, k, bounce);
    assert Bounce(false, piece, b)[..|piece|] == piece;
  }

  // A disc that is zero but for the second byte of one sector, so that no piece of it is decoded.
  function MarkedDisc(sector: nat): nat -> Byte {
    i => if i == 2048 * sector + 1 then 1 else 0
  }

  lemma MarkedPieces(sector: nat, lsn: nat, n: nat)
    requires 0 < n
    ensures Decode(lsn, Bytes(MarkedDisc(sector), 2048 * lsn, 2048 * n)) == Bytes(MarkedDisc(sector), 2048 * lsn, 2048 * n)
  {
    assert Bytes(MarkedDisc(sector), 2048 * lsn, 2048 * n)[0] == 0;
  }

  lemma {:induction false} MarkedPlain(sector: nat, lsn: nat, n: nat, c: nat)
    requires 0 < c
    ensures Pieces(MarkedDisc(sector), lsn, n, c) == Bytes(MarkedDisc(sector), 2048 * lsn, 2048 * n)
    decreases n
  {
    if n > 0 {
      var k := if n > c then c else n;
      MarkedPieces(sector, lsn, k);
      MarkedPlain(sector, lsn + k, n - k, c);
      BytesSplit(MarkedDisc(sector), 2048 * lsn, 2048 * k, 2048 * (n - k));
    }
  }

  // A test that sees a break leaves something of the first m sectors wrong on some disc.
  lemma CutShown(breaks: nat -> bool, aligned: bool, accurate: bool, lsn: nat, n: nat, m: nat, c: nat, k: nat)
    returns (disc: nat -> Byte, bounce: seq<Byte>, was: seq<Byte>)
    requires c == PathPieces(aligned, accurate, n) && c * k < m <= n && breaks(k)
    ensures |bounce| == 4096 && 2048 * n <= |was|
    ensures Splice(was, 0, Comes(disc, breaks, aligned, accurate, lsn, n, bounce))[..2048 * m] != Pieces(disc, lsn, n, c)[..2048 * m]
  {
    bounce, was := seq(4096, _ => 0), seq(2048 * n, _ => 0);
    var g: nat;
    if aligned {
      g := Come(breaks, c, n, 0);
      LessComes(breaks, c, n, m, k);
    } else {
      g := TwiceFits(c, k, m);
    }
    disc := MarkedDisc(lsn + g);
    MarkedByte(lsn, n, c, g);
    var came, i := Comes(disc, breaks, aligned, accurate, lsn, n, bounce), 2048 * g + 1;
    assert i < |came| ==> came[i] == 0 by {
      if aligned {
        ShortBefore(disc, breaks, accurate, lsn, n, bounce, c);
      } else {
        StaleShown(breaks, lsn, n, k, bounce);
      }
    }
    Differ(was, came, Pieces(disc, lsn, n, c), i, 2048 * m);
  }

  lemma ShortBefore(disc: nat -> Byte, breaks: nat -> bool, accurate: bool, lsn: nat, n: nat, bounce: seq<Byte>, c: nat)
    requires |bounce| == 4096 && c == PiecesOf(accurate, n)
    ensures |Comes(disc, breaks, true, accurate, lsn, n, bounce)| == 2048 * Come(breaks, c, n, 0)
  {
  }

  lemma TwiceFits(c: nat, k: nat, n: nat) returns (g: nat)
    requires c == 2 && c * k < n
    ensures g == 2 * k < n
  {
    g := 2 * k;
  }

  lemma Differ(s: seq<Byte>, x: seq<Byte>, y: seq<Byte>, i: nat, m: nat)
    requires |x| <= |y| <= |s| && i < m <= |y| && s[i] == 0 && y[i] != 0 && (i < |x| ==> x[i] == 0)
    ensures Splice(s, 0, x)[..m] != y[..m]
  {
    assert Splice(s, 0, x)[..m][i] == 0 != y[..m][i];
  }

  lemma LessComes(breaks: nat -> bool, c: nat, n: nat, m: nat, k: nat)
    requires 0 < c && c * k < m <= n && breaks(k)
    ensures Come(breaks, c, n, 0) < m
  {
    assert c * (k - 0) < m;
    ComeIff(breaks, c, n, m, 0);
  }

  lemma MarkedByte(lsn: nat, n: nat, c: nat, g: nat)
    requires 0 < c && g < n
    ensures Pieces(MarkedDisc(lsn + g), lsn, n, c)[2048 * g + 1] == 1
  {
    MarkedPlain(lsn + g, lsn, n, c);
  }

  // A piece cut from the bounced form shows the buffer's old contents.
  lemma StaleShown(breaks: nat -> bool, lsn: nat, n: nat, k: nat, bounce: seq<Byte>)
    requires |bounce| == 4096 && bounce[1] == 0 && 2 * k < n && breaks(k)
    ensures Bounced(MarkedDisc(lsn + 2 * k), breaks, lsn, n, bounce)[2048 * (2 * k) + 1] == 0
  {
    var disc := MarkedDisc(lsn + 2 * k);
    Unmarked(breaks, lsn, n, k, k, bounce);
    CopiedAt(disc, breaks, lsn, n, k, bounce, 1);
  }

  // What is copied out for piece k is what the buffer holds then.
  lemma CopiedAt(disc: nat -> Byte, breaks: nat -> bool, lsn: nat, n: nat, k: nat, bounce: seq<Byte>, x: nat)
    requires |bounce| == 4096 && 2 * k < n && x < 2048 * SizeAt(n, k)
    ensures Bounced(disc, breaks, lsn, n, bounce)[2048 * (2 * k) + x] == Held(disc, breaks, lsn, n, k + 1, bounce)[x]
  {
    var all, part, b := Bounced(disc, breaks, lsn, n, bounce), Copied(disc, breaks, lsn, n, k, bounce), Held(disc, breaks, lsn, n, k + 1, bounce);
    CopiedStays(disc, breaks, lsn, n, k + 1, BouncePieces(n), bounce);
    CopiedNext(disc, breaks, lsn, n, k, bounce);
    InPrefix(all, part, b[..2048 * SizeAt(n, k)], 2048 * Before(n, k + 1), x);
  }

  lemma InPrefix(all: seq<Byte>, part: seq<Byte>, more: seq<Byte>, m: nat, x: nat)
    requires m <= |all| && all[..m] == part + more && x < |more|
    ensures |part| + x < m && all[|part| + x] == more[x]
  {
    assert all[|part| + x] == all[..m][|part| + x];
  }

  lemma {:induction false} Unmarked(breaks: nat -> bool, lsn: nat, n: nat, k: nat, j: nat, bounce: seq<Byte>)
    requires |bounce| == 4096 && bounce[1] == 0 && j <= k && 2 * k < n
    ensures Held(MarkedDisc(lsn + 2 * k), breaks, lsn, n, j, bounce)[1] == 0
  {
    if j > 0 {
      Unmarked(breaks, lsn, n, k, j - 1, bounce);
      MarkedPiece(lsn + 2 * k, lsn + Before(n, j - 1), SizeAt(n, j - 1));
    }
  }

  // The first sector of a piece before the marked one has no mark.
  lemma MarkedPiece(sector: nat, lsn: nat, n: nat)
    requires lsn < sector && 0 < n
    ensures Piece(MarkedDisc(sector), lsn, n)[1] == 0
  {
    var raw := Bytes(MarkedDisc(sector), 2048 * lsn, 2048 * n);
    assert raw[0] == 0 && raw[1] == 0;
  }

  // What has been copied out stays.
  lemma CopiedStays(disc: nat -> Byte, breaks: nat -> bool, lsn: nat, n: nat, k: nat, j: nat, bounce: seq<Byte>)
    requires |bounce| == 4096 && k <= j
    ensures 2048 * Before(n, k) <= 2048 * Before(n, j)
    ensures Copied(disc, breaks, lsn, n, j, bounce)[..2048 * Before(n, k)] == Copied(disc, breaks, lsn, n, k, bounce)
  {
    var x := Copied(disc, breaks, lsn, n, k, bounce);
    Whole(x, 2048 * Before(n, k));
    Extends(disc, breaks, lsn, n, k, j, bounce, x, 2048 * Before(n, k));
  }

  lemma Whole(x: seq<Byte>, m: nat)
    requires |x| == m
    ensures x[..m] == x
  {
  }

  lemma {:induction false} Extends(disc: nat -> Byte, breaks: nat -> bool, lsn: nat, n: nat, k: nat, j: nat, bounce: seq<Byte>,
                                   x: seq<Byte>, m: nat)
    requires |bounce| == 4096 && k <= j && m <= |Copied(disc, breaks, lsn, n, k, bounce)|
    requires Copied(disc, breaks, lsn, n, k, bounce)[..m] == x
    ensures m <= |Copied(disc, breaks, lsn, n, j, bounce)| && Copied(disc, breaks, lsn, n, j, bounce)[..m] == x
    decreases j - k
  {
    if k < j {
      ExtendsOnce(disc, breaks, lsn, n, k, bounce, x, m);
      Extends(disc, breaks, lsn, n, k + 1, j, bounce, x, m);
    }
  }

  lemma ExtendsOnce(disc: nat -> Byte, breaks: nat -> bool, lsn: nat, n: nat, k: nat, bounce: seq<Byte>, x: seq<Byte>, m: nat)
    requires |bounce| == 4096 && m <= |Copied(disc, breaks, lsn, n, k, bounce)|
    requires Copied(disc, breaks, lsn, n, k, bounce)[..m] == x
    ensures m <= |Copied(disc, breaks, lsn, n, k + 1, bounce)| && Copied(disc, breaks, lsn, n, k + 1, bounce)[..m] == x
  {
    CopiedNext(disc, breaks, lsn, n, k, bounce);
    PrefixStays(x, Copied(disc, breaks, lsn, n, k, bounce), Held(disc, breaks, lsn, n, k + 1, bounce)[..2048 * SizeAt(n, k)],
                Copied(disc, breaks, lsn, n, k + 1, bounce), m);
  }

  lemma PrefixStays(x: seq<Byte>, y: seq<Byte>, more: seq<Byte>, z: seq<Byte>, m: nat)
    requires m <= |y| && y[..m] == x && z == y + more
    ensures m <= |z| && z[..m] == x
  {
  }

  lemma CopiedNext(disc: nat -> Byte, breaks: nat -> bool, lsn: nat, n: nat, k: nat, bounce: seq<Byte>)
    requires |bounce| == 4096
    ensures Copied(disc, breaks, lsn, n, k + 1, bounce)
         == Copied(disc, breaks, lsn, n, k, bounce) + Held(disc, breaks, lsn, n, k + 1, bounce)[..2048 * SizeAt(n, k)]
  {
  }

  /** A read of 9 sectors under emulated timing whose second test sees a break: the ninth sector does not arrive. */
  lemma CutDirect(disc: nat -> Byte, breaks: nat -> bool, bounce: seq<Byte>, was: seq<Byte>)
    requires |bounce| == 4096 && |was| == 2048 * 9 && !breaks(0) && breaks(1)
    ensures Splice(was, 0, Comes(disc, breaks, true, true, 16, 9, bounce)) == Bytes(disc, 2048 * 16, 2048 * 8) + was[2048 * 8..]
  {
    assert Come(breaks, 8, 1, 1) == 0 && Come(breaks, 8, 9, 0) == 8;
    PiecesPlain(disc, 16, 9, 8);
    BytesSlice(disc, 2048 * 16, 2048 * 9, 0, 2048 * 8);
  }

  /** A bounced read of one sector whose test sees a break: the caller receives what the bounce buffer held. */
  lemma CutBounced(disc: nat -> Byte, breaks: nat -> bool, accurate: bool, bounce: seq<Byte>)
    requires |bounce| == 4096 && breaks(0)
    ensures Comes(disc, breaks, false, accurate, 16, 1, bounce) == bounce[..2048]
  {
    assert Copied(disc, breaks, 16, 1, 0, bounce) == [];
    assert Copied(disc, breaks, 16, 1, 1, bounce) == Held(disc, breaks, 16, 1, 1, bounce)[..2048];
  }

  /** All paths give the same buffer past the logo: the plain sectors of the disc. */
  lemma PathsAgree(disc: nat -> Byte, lsn: nat, sectors: nat, aligned: bool, accurate: bool)
    requires LOGO_SECTORS <= lsn
    ensures Pieces(disc, lsn, sectors, PathPieces(aligned, accurate, sectors)) == Bytes(disc, 2048 * lsn, 2048 * sectors)
  {
    PiecesPlain(disc, lsn, sectors, PathPieces(aligned, accurate, sectors));
  }

  // Together: past the logo, what no break cuts is the plain disc.
  lemma UncutPlain(disc: nat -> Byte, breaks: nat -> bool, aligned: bool, accurate: bool, lsn: nat, n: nat, m: nat, bounce: seq<Byte>)
    requires LOGO_SECTORS <= lsn && |bounce| == 4096 && m <= n && Uncut(breaks, PathPieces(aligned, accurate, n), m)
    ensures 2048 * m <= |Comes(disc, breaks, aligned, accurate, lsn, n, bounce)|
    ensures Comes(disc, breaks, aligned, accurate, lsn, n, bounce)[..2048 * m] == Bytes(disc, 2048 * lsn, 2048 * m)
  {
    UncutComes(disc, breaks, aligned, accurate, lsn, n, m, PathPieces(aligned, accurate, n), bounce);
    PathsAgree(disc, lsn, n, aligned, accurate);
    BytesSlice(disc, 2048 * lsn, 2048 * n, 0, 2048 * m);
  }

  // A read of readable sectors whose error nobody asks for.
  method ReadThrough(disc: nat -> Byte, breaks: nat -> bool, accurate: bool, lsn: nat, sectors: nat, buf: array<Byte>, at: nat,
                     cdvdman_buf: array<Byte>)
    requires cdvdman_buf.Length == 4096 && cdvdman_buf != buf && at + 2048 * sectors <= buf.Length
    modifies buf, cdvdman_buf
    ensures buf[..] == Splice(old(buf[..]), at, Comes(disc, breaks, at % 4 == 0, accurate, lsn, sectors, old(cdvdman_buf[..])))
  {
    var err := cdvdman_read(disc, {}, breaks, accurate, lsn, sectors, buf, at, cdvdman_buf, CDVD_ERR_NO);
  }

  /** A read past the logo on a disc without bad sectors, waited for, that no break meets: sceCdRead followed by
      sceCdSync(0). Whatever the setting and the alignment it gives the plain sectors of the disc. */
  method ReadDisc(disc: nat -> Byte, lsn: nat, sectors: nat, buf: array<Byte>, at: nat)
    requires LOGO_SECTORS <= lsn && at + 2048 * sectors <= buf.Length
    modifies buf
    ensures buf[..] == Splice(old(buf[..]), at, Bytes(disc, 2048 * lsn, 2048 * sectors))
    ensures buf[at..at + 2048 * sectors] == Bytes(disc, 2048 * lsn, 2048 * sectors)
  {
    var accurate: bool := *;
    var cdvdman_buf := new Byte[4096];
    var breaks := (k: nat) => false;
    UncutPlain(disc, breaks, at % 4 == 0, accurate, lsn, sectors, sectors, cdvdman_buf[..]);
    ghost var came := Comes(disc, breaks, at % 4 == 0, accurate, lsn, sectors, cdvdman_buf[..]);
    assert came == came[..2048 * sectors];
    SpliceBegins(buf[..], at, came, 2048 * sectors);
    ReadThrough(disc, breaks, accurate, lsn, sectors, buf, at, cdvdman_buf);
  }
}
