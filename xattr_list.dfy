/**
 * Decoding the buffer that `listxattr` fills: the buffer is split on the NUL
 * octet the way Swift's `split(separator: 0)` splits (empty pieces omitted),
 * and each piece is decoded as UTF-8, pieces that do not decode being dropped
 * (`compactMap`).
 */
module XattrList {
  import opened Wrappers
  import opened Utf8

  const NUL: uint8 := 0

  /** `n` NUL octets, what `Data(count: n)` holds before anything is written into it. */
  function Zeros(n: nat): (z: seq<uint8>)
    ensures |z| == n && forall i :: 0 <= i < n ==> z[i] == NUL
  {
    seq(n, _ => NUL)
  }

  /** The index of the first NUL in `buf`, or `|buf|` when there is none. */
  function NulIndex(buf: seq<uint8>): (k: nat)
    ensures k <= |buf|
    ensures forall i :: 0 <= i < k ==> buf[i] != NUL
    ensures k < |buf| ==> buf[k] == NUL
  {
    if buf == [] || buf[0] == NUL then 0 else 1 + NulIndex(buf[1..])
  }

  /**
   * `buf.split(separator: 0)`: the runs of non-NUL octets between NULs, in
   * order; the empty pieces that leading, trailing and adjacent NULs would
   * give are omitted.
   */
  function Split(buf: seq<uint8>): (segs: seq<seq<uint8>>)
    ensures forall k :: 0 <= k < |segs| ==> segs[k] != [] && NUL !in segs[k]
    decreases |buf|
  {
    if buf == [] then
      []
    else if buf[0] == NUL then
      Split(buf[1..])
    else
      var k := NulIndex(buf);
      [buf[..k]] + Split(buf[k..])
  }

  /** `buf[i..j]` is non-empty and bounded by NULs or the ends of the buffer. */
  ghost predicate IsDelimited(buf: seq<uint8>, i: int, j: int) {
    && 0 <= i < j <= |buf|
    && (i == 0 || buf[i - 1] == NUL)
    && (j == |buf| || buf[j] == NUL)
  }

  /** `buf[i..j]` is a maximal run of non-NUL octets: non-empty, NUL-free, and bounded by NULs or the ends. */
  ghost predicate IsMaximalRun(buf: seq<uint8>, i: int, j: int) {
    IsDelimited(buf, i, j) && forall p :: i <= p < j ==> buf[p] != NUL
  }

  /** A NUL-free buffer's first NUL is the one that follows it. */
  lemma NulIndexOfPrefix(x: seq<uint8>, y: seq<uint8>)
    requires NulIndex(x) == |x|
    ensures NulIndex(x + [NUL] + y) == |x|
  {
    var b := x + [NUL] + y;
    assert b[|x|] == NUL;
    assert forall i :: 0 <= i < |x| ==> b[i] == x[i];
  }

  /** A NUL inside `x` is found before the appended part. */
  lemma NulIndexInPrefix(x: seq<uint8>, y: seq<uint8>)
    requires NulIndex(x) < |x|
    ensures NulIndex(x + y) == NulIndex(x)
  {
    var b := x + y;
    assert forall i :: 0 <= i < |x| ==> b[i] == x[i];
  }

  /** One step of `Split`: a leading NUL is skipped, otherwise the run up to the first NUL is a piece. */
  lemma SplitCons(b: seq<uint8>)
    requires b != []
    ensures b[0] == NUL ==> Split(b) == Split(b[1..])
    ensures b[0] != NUL ==> Split(b) == [b[..NulIndex(b)]] + Split(b[NulIndex(b)..])
  {
  }

  /** A non-empty NUL-free `x` before a NUL is one piece, then come the pieces of `y`. */
  lemma SplitNulFreeThenNul(x: seq<uint8>, y: seq<uint8>)
    requires x != [] && x[0] != NUL && NulIndex(x) == |x|
    ensures Split(x + [NUL] + y) == Split(x) + Split(y)
  {
    var b := x + [NUL] + y;
    NulIndexOfPrefix(x, y);
    SplitCons(b);
    assert b[..|x|] == x;
    assert b[|x|..] == [NUL] + y;
    SplitCons([NUL] + y);
    assert ([NUL] + y)[1..] == y;
    SplitCons(x);
    assert x[..|x|] == x && x[|x|..] == [];
  }

  /** When `x` holds a NUL, its first piece is also the first piece of `x + [NUL] + y`. */
  lemma SplitFirstPieceInPrefix(x: seq<uint8>, y: seq<uint8>)
    requires x != [] && x[0] != NUL && NulIndex(x) < |x|
    ensures var k := NulIndex(x);
            && Split(x + [NUL] + y) == [x[..k]] + Split(x[k..] + [NUL] + y)
            && Split(x) == [x[..k]] + Split(x[k..])
  {
    var b, k := x + [NUL] + y, NulIndex(x);
    NulIndexInPrefix(x, [NUL] + y);
    assert b == x + ([NUL] + y);
    assert b[..k] == x[..k];
    assert b[k..] == x[k..] + [NUL] + y;
    SplitCons(b);
    SplitCons(x);
  }

  /**
   * Splitting is a homomorphism at each NUL: the pieces of `x + [NUL] + y`
   * are the pieces of `x` followed by those of `y`. With `SplitRun` and
   * `Split([]) == []` this determines `Split` on every buffer.
   */
  lemma {:induction false} SplitAtNul(x: seq<uint8>, y: seq<uint8>)
    ensures Split(x + [NUL] + y) == Split(x) + Split(y)
    decreases |x|
  {
    var b := x + [NUL] + y;
    if x == [] {
      assert b == [NUL] + y && b[1..] == y;
      SplitCons(b);
    } else if x[0] == NUL {
      assert b[1..] == x[1..] + [NUL] + y;
      SplitCons(b);
      SplitCons(x);
      SplitAtNul(x[1..], y);
    } else if NulIndex(x) == |x| {
      SplitNulFreeThenNul(x, y);
    } else {
      var k := NulIndex(x);
      SplitFirstPieceInPrefix(x, y);
      SplitAtNul(x[k..], y);
      assert [x[..k]] + (Split(x[k..]) + Split(y)) == [x[..k]] + Split(x[k..]) + Split(y);
    }
  }

  /** A non-empty NUL-free buffer is one piece. */
  lemma SplitRun(s: seq<uint8>)
    requires s != [] && NUL !in s
    ensures Split(s) == [s]
  {
    var k := NulIndex(s);
    assert k == |s|;
    assert s[..k] == s && s[k..] == [];
  }

  /** NULs alone give no piece. */
  lemma {:induction false} SplitZeros(n: nat)
    ensures Split(Zeros(n)) == []
  {
    if n > 0 {
      assert Zeros(n)[1..] == Zeros(n - 1);
      SplitZeros(n - 1);
    }
  }

  /** Trailing NULs give no piece: the zero padding of an over-sized buffer changes nothing. */
  lemma SplitIgnoresPadding(buf: seq<uint8>, n: nat)
    ensures Split(buf + Zeros(n)) == Split(buf)
  {
    if n > 0 {
      assert Zeros(n) == [NUL] + Zeros(n - 1);
      assert buf + Zeros(n) == buf + [NUL] + Zeros(n - 1);
      SplitAtNul(buf, Zeros(n - 1));
      SplitZeros(n - 1);
      assert Split(buf) + [] == Split(buf);
    } else {
      assert buf + Zeros(n) == buf;
    }
  }

  /**
   * A delimited stretch `i..j` of a suffix that follows a NUL, or starts the
   * buffer, is the delimited stretch `n + i..n + j` of the whole buffer.
   */
  lemma ShiftDelimited(buf: seq<uint8>, n: nat, i: int, j: int) returns (i2: int, j2: int)
    requires n <= |buf| && IsDelimited(buf[n..], i, j)
    requires i == 0 ==> n == 0 || buf[n - 1] == NUL
    ensures i2 == n + i && j2 == n + j
    ensures IsDelimited(buf, i2, j2) && buf[n..][i..j] == buf[i2..j2] && buf[n..][i] == buf[i2]
  {
    i2, j2 := n + i, n + j;
    var suffix := buf[n..];
    assert forall p :: 0 <= p < |suffix| ==> suffix[p] == buf[n + p];
    assert i > 0 ==> buf[n + i - 1] == suffix[i - 1];
  }

  /** A piece of a suffix that starts with a NUL does not start it, so it is delimited in the whole buffer. */
  lemma ShiftPieceAfterNul(buf: seq<uint8>, n: nat, i: int, j: int) returns (i2: int, j2: int)
    requires n < |buf| && buf[n] == NUL && IsDelimited(buf[n..], i, j) && buf[n..][i] != NUL
    ensures IsDelimited(buf, i2, j2) && buf[n..][i..j] == buf[i2..j2] && buf[i2] != NUL
  {
    assert buf[n..][0] == NUL;
    i2, j2 := ShiftDelimited(buf, n, i, j);
  }

  /** A leading NUL shifts no piece: the `k`-th piece is the `k`-th piece of the rest. */
  lemma PieceAfterLeadingNul(buf: seq<uint8>, k: nat)
    requires buf != [] && buf[0] == NUL && k < |Split(buf)|
    ensures k < |Split(buf[1..])| && Split(buf)[k] == Split(buf[1..])[k]
  {
    SplitCons(buf);
  }

  /** A buffer that starts with a non-NUL octet has the run up to its first NUL as its first piece. */
  lemma FirstPieceBounds(buf: seq<uint8>)
    requires buf != [] && buf[0] != NUL
    ensures 0 < |Split(buf)| && IsDelimited(buf, 0, NulIndex(buf)) && Split(buf)[0] == buf[0..NulIndex(buf)]
  {
    SplitCons(buf);
  }

  /** The later pieces of such a buffer are the pieces from its first NUL on. */
  lemma LaterPiece(buf: seq<uint8>, k: nat)
    requires buf != [] && buf[0] != NUL && 0 < k < |Split(buf)|
    ensures var n := NulIndex(buf);
            0 < n < |buf| && buf[n] == NUL && k - 1 < |Split(buf[n..])| && Split(buf)[k] == Split(buf[n..])[k - 1]
  {
    SplitCons(buf);
  }

  /** The bounds of the `k`-th piece: it lies between NULs or the ends of the buffer, and does not start with a NUL. */
  lemma {:induction false} PieceBounds(buf: seq<uint8>, k: nat) returns (i: int, j: int)
    requires k < |Split(buf)|
    ensures IsDelimited(buf, i, j) && Split(buf)[k] == buf[i..j] && buf[i] != NUL
    decreases |buf|
  {
    if buf[0] == NUL {
      PieceAfterLeadingNul(buf, k);
      var i', j' := PieceBounds(buf[1..], k);
      i, j := ShiftDelimited(buf, 1, i', j');
    } else if k == 0 {
      FirstPieceBounds(buf);
      i, j := 0, NulIndex(buf);
    } else {
      var n := NulIndex(buf);
      LaterPiece(buf, k);
      var i', j' := PieceBounds(buf[n..], k - 1);
      i, j := ShiftPieceAfterNul(buf, n, i', j');
    }
  }

  /** Every piece is a maximal run of non-NUL octets of the buffer. */
  lemma SplitPiecesAreMaximalRuns(buf: seq<uint8>, k: nat)
    requires k < |Split(buf)|
    ensures exists i, j :: IsMaximalRun(buf, i, j) && Split(buf)[k] == buf[i..j]
  {
    var i, j := PieceBounds(buf, k);
    var piece := buf[i..j];
    assert NUL !in piece;
    assert forall p :: i <= p < j ==> buf[p] == piece[p - i];
    assert IsMaximalRun(buf, i, j);
  }

  /** The octets of a maximal run are non-empty and NUL-free. */
  lemma RunIsNulFree(buf: seq<uint8>, i: int, j: int)
    requires IsMaximalRun(buf, i, j)
    ensures buf[i..j] != [] && NUL !in buf[i..j]
  {
    var run := buf[i..j];
    assert forall p :: 0 <= p < |run| ==> run[p] == buf[i + p];
  }

  /** A buffer with a NUL at `i - 1` is what comes before that NUL, the NUL, and what comes after. */
  lemma CutAtNul(buf: seq<uint8>, i: nat)
    requires 0 < i <= |buf| && buf[i - 1] == NUL
    ensures buf[..i - 1] + [NUL] + buf[i..] == buf
  {
  }

  /** A NUL at `i - 1` cuts the pieces into those before it and those after it. */
  lemma SplitAfterNul(buf: seq<uint8>, i: nat)
    requires 0 < i <= |buf| && buf[i - 1] == NUL
    ensures Split(buf) == Split(buf[..i - 1]) + Split(buf[i..])
  {
    var x, y := buf[..i - 1], buf[i..];
    CutAtNul(buf, i);
    SplitAtNul(x, y);
  }

  /** A suffix that starts with a maximal run has that run as its first piece. */
  lemma SplitFromRun(buf: seq<uint8>, i: int, j: int)
    requires IsMaximalRun(buf, i, j)
    ensures buf[i..j] in Split(buf[i..])
  {
    var run := buf[i..j];
    RunIsNulFree(buf, i, j);
    SplitRun(run);
    if j == |buf| {
      assert buf[i..] == run;
    } else {
      assert buf[i..] == run + [NUL] + buf[j + 1..];
      SplitAtNul(run, buf[j + 1..]);
    }
  }

  /** Every maximal run of non-NUL octets of the buffer is one of its pieces. */
  lemma MaximalRunsArePieces(buf: seq<uint8>, i: int, j: int)
    requires IsMaximalRun(buf, i, j)
    ensures buf[i..j] in Split(buf)
  {
    SplitFromRun(buf, i, j);
    if i > 0 {
      SplitAfterNul(buf, i);
    }
  }

  /** `compactMap { String(data:encoding: .utf8) }`: the pieces that decode, decoded, in order. */
  function DecodePieces(segs: seq<seq<uint8>>): (names: seq<string>)
    ensures |names| <= |segs|
  {
    if segs == [] then
      []
    else
      match Decode(segs[0])
      case Some(name) => [name] + DecodePieces(segs[1..])
      case None => DecodePieces(segs[1..])
  }

  /** The pieces the UTF-8 grammar accepts, in order. */
  function WellFormedPieces(segs: seq<seq<uint8>>): (valid: seq<seq<uint8>>)
    ensures forall v :: v in valid ==> v in segs && IsWellFormed(v)
  {
    if segs == [] then []
    else if IsWellFormed(segs[0]) then [segs[0]] + WellFormedPieces(segs[1..])
    else WellFormedPieces(segs[1..])
  }

  /** The names of a `listxattr` buffer. */
  function AttributeNames(buf: seq<uint8>): (names: seq<string>)
    ensures |names| <= |Split(buf)|
  {
    DecodePieces(Split(buf))
  }

  /**
   * The names are exactly the well-formed pieces, decoded, in buffer order:
   * a piece that is not UTF-8 is dropped, the call does not fail.
   */
  lemma {:induction false} DecodePiecesKeepsWellFormed(segs: seq<seq<uint8>>)
    ensures var names := DecodePieces(segs);
            var valid := WellFormedPieces(segs);
            |names| == |valid| && forall i :: 0 <= i < |names| ==> Decode(valid[i]) == Some(names[i])
  {
    if segs != [] {
      DecodeSucceedsIffWellFormed(segs[0]);
      DecodePiecesKeepsWellFormed(segs[1..]);
    }
  }

  /** When every piece is UTF-8, no name is lost. */
  lemma AllWellFormedKeepsCount(segs: seq<seq<uint8>>)
    requires forall k :: 0 <= k < |segs| ==> IsWellFormed(segs[k])
    ensures |DecodePieces(segs)| == |segs|
  {
    if segs != [] {
      DecodeSucceedsIffWellFormed(segs[0]);
      AllWellFormedKeepsCount(segs[1..]);
    }
  }

  /** No name is empty and no name contains U+0000. */
  lemma {:induction false} AttributeNamesAreNonEmptyAndNulFree(buf: seq<uint8>)
    ensures forall n :: n in AttributeNames(buf) ==> n != [] && '\0' !in n
  {
    DecodedPiecesAreNonEmptyAndNulFree(Split(buf));
  }

  lemma {:induction false} DecodedPiecesAreNonEmptyAndNulFree(segs: seq<seq<uint8>>)
    requires forall k :: 0 <= k < |segs| ==> segs[k] != [] && NUL !in segs[k]
    ensures forall n :: n in DecodePieces(segs) ==> n != [] && '\0' !in n
  {
    if segs != [] {
      DecodedPiecesAreNonEmptyAndNulFree(segs[1..]);
      var d := Decode(segs[0]);
      if d.Some? {
        EncodeDecode(segs[0]);
        EncodeHasNulIffStringHasNul(d.value);
        EncodeEmptyIffEmpty(d.value);
      }
    }
  }

  /** Zero padding after the written part of the buffer yields no extra name. */
  lemma AttributeNamesIgnorePadding(buf: seq<uint8>, n: nat)
    ensures AttributeNames(buf + Zeros(n)) == AttributeNames(buf)
  {
    SplitIgnoresPadding(buf, n);
  }

  /** The buffer `listxattr` fills for these names: each name's UTF-8 followed by a NUL. */
  ghost function ListBuffer(names: seq<string>): (buf: seq<uint8>)
    ensures |buf| >= |names|
    ensures names != [] ==> buf[|buf| - 1] == NUL
  {
    if names == [] then [] else Encode(names[0]) + [NUL] + ListBuffer(names[1..])
  }

  /** A buffer that starts with a non-empty NUL-free name's encoding and a NUL has that encoding as its first piece. */
  lemma SplitListBuffer(names: seq<string>)
    requires names != [] && names[0] != [] && '\0' !in names[0]
    ensures Split(ListBuffer(names)) == [Encode(names[0])] + Split(ListBuffer(names[1..]))
  {
    var e := Encode(names[0]);
    EncodeHasNulIffStringHasNul(names[0]);
    EncodeEmptyIffEmpty(names[0]);
    SplitAtNul(e, ListBuffer(names[1..]));
    SplitRun(e);
  }

  /** A piece that decodes contributes its name in front of the names of the pieces after it. */
  lemma DecodePiecesCons(seg: seq<uint8>, segs: seq<seq<uint8>>, name: string)
    requires Decode(seg) == Some(name)
    ensures DecodePieces([seg] + segs) == [name] + DecodePieces(segs)
  {
    assert ([seg] + segs)[1..] == segs;
  }

  /** Decoding a `listxattr` buffer gives back the names that were put in it. */
  lemma {:induction false} AttributeNamesOfListBuffer(names: seq<string>)
    requires forall k :: 0 <= k < |names| ==> names[k] != [] && '\0' !in names[k]
    ensures AttributeNames(ListBuffer(names)) == names
  {
    if names != [] {
      SplitListBuffer(names);
      AttributeNamesOfListBuffer(names[1..]);
      DecodeEncode(names[0]);
      DecodePiecesCons(Encode(names[0]), Split(ListBuffer(names[1..])), names[0]);
      assert [names[0]] + names[1..] == names;
    }
  }
}
