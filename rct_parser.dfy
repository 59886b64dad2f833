/*******************************************************************************
 *  The incremental frame parser of rct_parser.py: index scans, unescaping,
 *  header decoding, and the FrameParser object that keeps a resume cursor
 *  across calls on a growing or shared buffer.
 *******************************************************************************/

module RctParser {
  import opened RctTypes

  // =========================================================== index scans

  /** The pair `a, b` occurs in `data` at index `k`. */
  predicate PairAt(data: seq<byte>, k: int, a: byte, b: byte) {
    0 <= k < |data| - 1 && data[k] == a && data[k + 1] == b
  }

  /** The loop of `_find_byte_tuple`, from index `pos` on. */
  function FindByteTupleFrom(data: seq<byte>, a: byte, b: byte, pos: nat): (r: int)
    ensures r == -1 || (pos <= r && PairAt(data, r, a, b))
    ensures forall k :: pos <= k < (if r == -1 then |data| else r) ==> !PairAt(data, k, a, b)
    decreases |data| - pos
  {
    if pos + 1 >= |data| then -1
    else if data[pos] == a && data[pos + 1] == b then pos
    else FindByteTupleFrom(data, a, b, pos + 1)
  }

  /** `_find_byte_tuple`: the first index at which `a, b` occurs in `data`, or -1. */
  function FindByteTuple(data: seq<byte>, a: byte, b: byte): (pos: int)
    ensures pos == -1 || PairAt(data, pos, a, b)
    ensures forall k :: 0 <= k < (if pos == -1 then |data| else pos) ==> !PairAt(data, k, a, b)
  {
    FindByteTupleFrom(data, a, b, 0)
  }

  /** An escape token at `k` followed by a start or an escape token. */
  predicate IsEscapePair(data: seq<byte>, k: int) {
    0 <= k < |data| - 1 && data[k] == EscapeToken && IsReserved(data[k + 1])
  }

  /** The loop of `_find_escaped_byte`, from index `pos` on. */
  function FindEscapedByteFrom(data: seq<byte>, pos: nat): (r: int)
    ensures r == -1 || (pos <= r && IsEscapePair(data, r))
    ensures forall k :: pos <= k < (if r == -1 then |data| else r) ==> !IsEscapePair(data, k)
    decreases |data| - pos
  {
    if pos + 1 >= |data| then -1
    else if data[pos] == EscapeToken && (data[pos + 1] == StartToken || data[pos + 1] == EscapeToken) then pos
    else FindEscapedByteFrom(data, pos + 1)
  }

  /** `_find_escaped_byte`: the first index of `2D 2B` or `2D 2D` in `data`, or -1. */
  function FindEscapedByte(data: seq<byte>): (pos: int)
    ensures pos == -1 || IsEscapePair(data, pos)
    ensures forall k :: 0 <= k < (if pos == -1 then |data| else pos) ==> !IsEscapePair(data, k)
  {
    FindEscapedByteFrom(data, 0)
  }

  /** The smaller of two scan results, where -1 means "not found". */
  function FirstFound(x: int, y: int): int {
    if x == -1 then y else if y == -1 then x else if x <= y then x else y
  }

  /** `_find_escaped_byte` finds whichever of the two tuples `_find_byte_tuple` finds first. */
  lemma {:induction false} EscapedByteIsFirstTuple(data: seq<byte>, pos: nat)
    ensures FindEscapedByteFrom(data, pos)
         == FirstFound(FindByteTupleFrom(data, EscapeToken, StartToken, pos),
                       FindByteTupleFrom(data, EscapeToken, EscapeToken, pos))
    decreases |data| - pos
  {
    if pos + 1 < |data| && !IsEscapePair(data, pos) {
      EscapedByteIsFirstTuple(data, pos + 1);
    }
  }

  // ============================================================ unescaping

  /**
   * The escaping rule of the wire format: every start or escape token of the
   * data is sent with an escape token in front of it.
   */
  function Escape(t: seq<byte>): (w: seq<byte>)
    ensures |w| >= |t|
  {
    if t == [] then []
    else (if IsReserved(t[0]) then [EscapeToken, t[0]] else [t[0]]) + Escape(t[1..])
  }

  /**
   * Unescaping as the escaping rule demands, from left to right: an escape token
   * followed by a start or an escape token stands for the second of the two.
   */
  function Unescape(s: seq<byte>): (r: seq<byte>)
    ensures |r| <= |s|
  {
    if |s| < 2 then s
    else if s[0] == EscapeToken && IsReserved(s[1]) then [s[1]] + Unescape(s[2..])
    else [s[0]] + Unescape(s[1..])
  }

  /**
   * Where, in `Unescape(s)` and offset by `at`, the bytes stand that an escape
   * token protected: the values the unescaping loop appends to `escape_indexes`.
   */
  function EscapePositions(s: seq<byte>, at: nat): seq<nat>
  {
    if |s| < 2 then []
    else if s[0] == EscapeToken && IsReserved(s[1]) then [at] + EscapePositions(s[2..], at + 1)
    else EscapePositions(s[1..], at + 1)
  }

  /** Unescaping the escaped form of `t` gives `t` back, whatever follows it. */
  lemma {:induction false} UnescapeOfEscape(t: seq<byte>, q: seq<byte>)
    ensures Unescape(Escape(t) + q) == t + Unescape(q)
  {
    if t == [] {
      assert Escape(t) + q == q;
    } else {
      UnescapeOfEscape(t[1..], q);
      EscapeUnfolds(t, q);
      ConsSplit(t, Unescape(q));
    }
  }

  lemma ConsSplit(t: seq<byte>, r: seq<byte>)
    requires t != []
    ensures [t[0]] + (t[1..] + r) == t + r
  {
    assert t == [t[0]] + t[1..];
  }

  lemma EscapeUnfolds(t: seq<byte>, q: seq<byte>)
    requires t != []
    ensures Unescape(Escape(t) + q) == [t[0]] + Unescape(Escape(t[1..]) + q)
  {
    var x, e := t[0], Escape(t[1..]);
    if IsReserved(x) {
      assert Escape(t) + q == [EscapeToken, x] + (e + q);
      UnescapePairFirst(x, e + q, 0);
    } else {
      assert Escape(t) + q == [x] + (e + q);
      UnescapePlainFirst(x, e + q);
    }
  }

  lemma UnescapeEscapeRoundTrip(t: seq<byte>)
    ensures Unescape(Escape(t)) == t
  {
    UnescapeOfEscape(t, []);
    assert Escape(t) + [] == Escape(t);
  }

  /** Every escape pair shrinks the data by one byte and records one position. */
  lemma {:induction false} EscapePositionsCount(s: seq<byte>, at: nat)
    ensures |Unescape(s)| + |EscapePositions(s, at)| == |s|
    decreases |s|
  {
    if |s| >= 2 {
      if s[0] == EscapeToken && IsReserved(s[1]) {
        EscapePositionsCount(s[2..], at + 1);
      } else {
        EscapePositionsCount(s[1..], at + 1);
      }
    }
  }

  /** Positions `log`, each in `[at, at + |r|)` and each holding a start or escape token of `r`. */
  predicate MarksProtected(r: seq<byte>, log: seq<nat>, at: nat) {
    forall k :: 0 <= k < |log| ==> at <= log[k] < at + |r| && IsReserved(r[log[k] - at])
  }

  predicate StrictlyIncreasing(log: seq<nat>) {
    forall k, l :: 0 <= k < l < |log| ==> log[k] < log[l]
  }

  /**
   * The recorded positions increase strictly, and each one holds, in the
   * result, the start or escape token that the deleted escape token protected.
   */
  lemma {:induction false} EscapePositionsMarkProtected(s: seq<byte>, at: nat)
    ensures MarksProtected(Unescape(s), EscapePositions(s, at), at)
    ensures StrictlyIncreasing(EscapePositions(s, at))
    decreases |s|
  {
    if |s| >= 2 {
      if s[0] == EscapeToken && IsReserved(s[1]) {
        EscapePositionsMarkProtected(s[2..], at + 1);
        MarksProtectedPair(s[1], Unescape(s[2..]), EscapePositions(s[2..], at + 1), at);
      } else {
        EscapePositionsMarkProtected(s[1..], at + 1);
        MarksProtectedPlain(s[0], Unescape(s[1..]), EscapePositions(s[1..], at + 1), at);
      }
    }
  }

  lemma MarksProtectedPlain(x: byte, r: seq<byte>, log: seq<nat>, at: nat)
    requires MarksProtected(r, log, at + 1)
    ensures MarksProtected([x] + r, log, at)
  {
    forall k | 0 <= k < |log| ensures at <= log[k] < at + |[x] + r| && IsReserved(([x] + r)[log[k] - at]) {
      assert ([x] + r)[log[k] - at] == r[log[k] - (at + 1)];
    }
  }

  lemma MarksProtectedPair(x: byte, r: seq<byte>, log: seq<nat>, at: nat)
    requires IsReserved(x) && MarksProtected(r, log, at + 1) && StrictlyIncreasing(log)
    ensures MarksProtected([x] + r, [at] + log, at)
    ensures StrictlyIncreasing([at] + log)
  {
    var log' := [at] + log;
    MarksProtectedPlain(x, r, log, at);
    forall k | 0 <= k < |log'| ensures at <= log'[k] < at + |[x] + r| && IsReserved(([x] + r)[log'[k] - at]) {
      if k > 0 { assert log'[k] == log[k - 1]; }
    }
    forall k, l | 0 <= k < l < |log'| ensures log'[k] < log'[l] {
      assert log'[l] == log[l - 1];
      if k > 0 { assert log'[k] == log[k - 1]; }
    }
  }

  /** Data without escape tokens passes unescaping unchanged. */
  lemma {:induction false} UnescapeWithoutEscapeTokens(s: seq<byte>, at: nat)
    requires forall k :: 0 <= k < |s| ==> s[k] != EscapeToken
    ensures Unescape(s) == s && EscapePositions(s, at) == []
    decreases |s|
  {
    if |s| >= 2 {
      UnescapeWithoutEscapeTokens(s[1..], at + 1);
      assert s == [s[0]] + s[1..];
    }
  }

  /** A first byte that is not an escape token survives unescaping. */
  lemma UnescapeKeepsFirst(s: seq<byte>)
    requires |s| > 0 && s[0] != EscapeToken
    ensures |Unescape(s)| > 0 && Unescape(s)[0] == s[0]
  {
  }

  /** A prefix in which no escape pair starts passes unescaping unchanged. */
  lemma {:induction false} UnescapePlainPrefix(u: seq<byte>, v: seq<byte>, at: nat)
    requires forall k :: 0 <= k < |u| ==> !IsEscapePair(u + v, k)
    ensures Unescape(u + v) == u + Unescape(v)
    ensures EscapePositions(u + v, at) == EscapePositions(v, at + |u|)
    decreases |u|
  {
    if u == [] {
      assert u + v == v;
    } else {
      var s := u + v;
      assert !IsEscapePair(s, 0);
      forall k | 0 <= k < |u[1..]| ensures !IsEscapePair(u[1..] + v, k) {
        assert !IsEscapePair(s, k + 1);
        assert s[1..] == u[1..] + v;
      }
      UnescapePlainPrefix(u[1..], v, at + 1);
      PlainFirstStep(u, v, at);
    }
  }

  lemma PlainFirstStep(u: seq<byte>, v: seq<byte>, at: nat)
    requires u != [] && !IsEscapePair(u + v, 0)
    ensures Unescape(u + v) == [u[0]] + Unescape(u[1..] + v)
    ensures EscapePositions(u + v, at) == EscapePositions(u[1..] + v, at + 1)
    ensures [u[0]] + (u[1..] + Unescape(v)) == u + Unescape(v)
  {
    var s := u + v;
    assert s[1..] == u[1..] + v;
    if |s| < 2 {
      assert u[1..] + v == [];
      assert u == [u[0]];
    }
    assert u == [u[0]] + u[1..];
  }

  /** An escape pair at the front: its escape token goes, the protected byte stays. */
  lemma UnescapePairFirst(x: byte, w: seq<byte>, at: nat)
    requires IsReserved(x)
    ensures Unescape([EscapeToken, x] + w) == [x] + Unescape(w)
    ensures EscapePositions([EscapeToken, x] + w, at) == [at] + EscapePositions(w, at + 1)
  {
    assert ([EscapeToken, x] + w)[2..] == w;
  }

  lemma SuffixPairs(b: seq<byte>, from: nat, k: nat)
    requires from <= |b| && k < |b| - from
    ensures IsEscapePair(b[from..], k) == IsEscapePair(b, from + k)
  {
  }

  /** When the search from `from` finds nothing, the rest of the buffer is already plain. */
  lemma UnescapePassDone(b: seq<byte>, from: nat, at: nat)
    requires from <= |b| && FindEscapedByteFrom(b, from) == -1
    ensures Unescape(b[from..]) == b[from..]
    ensures EscapePositions(b[from..], at) == []
  {
    var u := b[from..];
    forall k | 0 <= k < |u| ensures !IsEscapePair(u + [], k) {
      assert u + [] == u;
      SuffixPairs(b, from, k);
    }
    UnescapePlainPrefix(u, [], at);
    assert u + [] == u;
  }

  lemma PassOnPieces(p: seq<byte>, u: seq<byte>, x: byte, w: seq<byte>, at: nat)
    requires IsReserved(x)
    requires forall k :: 0 <= k < |u| ==> !IsEscapePair(u + ([EscapeToken, x] + w), k)
    ensures p + Unescape(u + ([EscapeToken, x] + w)) == (p + u + [x]) + Unescape(w)
    ensures EscapePositions(u + ([EscapeToken, x] + w), at) == [at + |u|] + EscapePositions(w, at + |u| + 1)
  {
    UnescapePlainPrefix(u, [EscapeToken, x] + w, at);
    UnescapePairFirst(x, w, at + |u|);
  }

  /**
   * `_unescape_buffer` as written: find the first escape pair, delete its escape
   * token, and search again from index 0. No escape pair is left in the result.
   */
  function UnescapeAsWritten(s: seq<byte>): (r: seq<byte>)
    ensures FindEscapedByte(r) == -1
    ensures |r| <= |s|
    decreases |s|
  {
    var pos := FindEscapedByte(s);
    if pos < 0 then s else UnescapeAsWritten(s[..pos] + s[pos + 1..])
  }

  /**
   * The indexes `_unescape_buffer` as written appends, offset by `at`: at each
   * turn, where the first escape pair stands in the buffer as it is by then.
   * One index for every escape token deleted.
   */
  function AsWrittenPositions(s: seq<byte>, at: nat): (log: seq<nat>)
    ensures |UnescapeAsWritten(s)| + |log| == |s|
    decreases |s|
  {
    var pos := FindEscapedByte(s);
    if pos < 0 then [] else [pos + at] + AsWrittenPositions(s[..pos] + s[pos + 1..], at)
  }

  /** One turn of `_unescape_buffer` as written: it leaves the result and the indexes still to come. */
  lemma AsWrittenTurn(found: seq<nat>, b: seq<byte>, at: nat, pos: int)
    requires pos == FindEscapedByte(b) && pos >= 0
    ensures var b' := b[..pos] + b[pos + 1..];
      && UnescapeAsWritten(b') == UnescapeAsWritten(b) && |b'| < |b|
      && (found + [pos + at]) + AsWrittenPositions(b', at) == found + AsWrittenPositions(b, at)
  {
    var b' := b[..pos] + b[pos + 1..];
    AsWrittenUnfolds(b, at, pos);
    assert (found + [pos + at]) + AsWrittenPositions(b', at) == found + ([pos + at] + AsWrittenPositions(b', at));
  }

  lemma AsWrittenUnfolds(b: seq<byte>, at: nat, pos: int)
    requires pos == FindEscapedByte(b) && pos >= 0
    ensures UnescapeAsWritten(b) == UnescapeAsWritten(b[..pos] + b[pos + 1..])
    ensures AsWrittenPositions(b, at) == [pos + at] + AsWrittenPositions(b[..pos] + b[pos + 1..], at)
  {
  }

  lemma AsWrittenWithoutPair(s: seq<byte>, at: nat)
    requires FindEscapedByte(s) == -1
    ensures UnescapeAsWritten(s) == Unescape(s) && AsWrittenPositions(s, at) == EscapePositions(s, at)
  {
    UnescapePassDone(s, 0, at);
    assert s[0..] == s;
  }

  /**
   * Where unescaping from left to right leaves no escape pair behind, the loop
   * as written deletes the same escape tokens and records the same indexes.
   */
  lemma {:induction false} UnescapeAsWrittenAgrees(s: seq<byte>, at: nat)
    requires FindEscapedByte(Unescape(s)) == -1
    ensures UnescapeAsWritten(s) == Unescape(s)
    ensures AsWrittenPositions(s, at) == EscapePositions(s, at)
    decreases |s|
  {
    var pos := FindEscapedByte(s);
    if pos < 0 {
      AsWrittenWithoutPair(s, at);
    } else {
      DeleteFirstPair(s, pos, at);
      UnescapeAsWrittenAgrees(s[..pos] + s[pos + 1..], at);
      AsWrittenUnfolds(s, at, pos);
    }
  }

  /**
   * One turn of the loop as written, where unescaping from left to right
   * leaves no escape pair: deleting the first escape token changes neither
   * the left-to-right result nor the indexes it records after this one.
   */
  lemma DeleteFirstPair(s: seq<byte>, pos: nat, at: nat)
    requires pos == FindEscapedByte(s) && FindEscapedByte(Unescape(s)) == -1
    ensures Unescape(s[..pos] + s[pos + 1..]) == Unescape(s)
    ensures EscapePositions(s, at) == [pos + at] + EscapePositions(s[..pos] + s[pos + 1..], at)
  {
    FirstPairSplit(s, pos);
    DeletePairPieces(s[..pos], s[pos + 1], s[pos + 2..], at);
    DeletedPieces(s, pos);
  }

  lemma FirstPairSplit(s: seq<byte>, pos: nat)
    requires pos == FindEscapedByte(s)
    ensures pos + 2 <= |s| && IsReserved(s[pos + 1])
    ensures s == s[..pos] + ([EscapeToken, s[pos + 1]] + s[pos + 2..])
    ensures forall k :: 0 <= k < pos ==> !IsEscapePair(s, k)
  {
  }

  lemma DeletePairPieces(u: seq<byte>, x: byte, w: seq<byte>, at: nat)
    requires IsReserved(x)
    requires forall k :: 0 <= k < |u| ==> !IsEscapePair(u + ([EscapeToken, x] + w), k)
    requires FindEscapedByte(Unescape(u + ([EscapeToken, x] + w))) == -1
    ensures Unescape((u + [x]) + w) == Unescape(u + ([EscapeToken, x] + w))
    ensures EscapePositions(u + ([EscapeToken, x] + w), at) == [at + |u|] + EscapePositions((u + [x]) + w, at)
  {
    var s := u + ([EscapeToken, x] + w);
    PassOnPieces([], u, x, w, at);
    assert [] + u + [x] == u + [x] && [] + Unescape(s) == Unescape(s);
    assert !IsEscapePair(u + [x] + Unescape(w), |u|);
    DeletedHasNoEarlyPair(u, x, w);
    UnescapePlainPrefix(u + [x], w, at);
  }

  /** After the first escape token is deleted, no escape pair starts before the byte it protected. */
  lemma DeletedHasNoEarlyPair(u: seq<byte>, x: byte, w: seq<byte>)
    requires IsReserved(x)
    requires forall k :: 0 <= k < |u| ==> !IsEscapePair(u + ([EscapeToken, x] + w), k)
    requires !IsEscapePair(u + [x] + Unescape(w), |u|)
    ensures forall k :: 0 <= k < |u + [x]| ==> !IsEscapePair((u + [x]) + w, k)
  {
    ProtectedThenPair(u, x, w);
    var s := u + ([EscapeToken, x] + w);
    var p := u + [x];
    forall k | 0 <= k < |p| ensures !IsEscapePair(p + w, k) {
      if k + 1 < |u| {
        assert !IsEscapePair(s, k);
        assert (p + w)[k] == s[k] && (p + w)[k + 1] == s[k + 1];
      } else if k + 1 == |u| {
        assert !IsEscapePair(s, k);
        assert (p + w)[k] == s[k] && s[k + 1] == EscapeToken;
      } else if |w| > 0 {
        assert (p + w)[k] == x && (p + w)[k + 1] == w[0];
      }
    }
  }

  lemma DeletedPieces(s: seq<byte>, pos: nat)
    requires pos + 2 <= |s|
    ensures s[..pos] + s[pos + 1..] == (s[..pos] + [s[pos + 1]]) + s[pos + 2..]
  {
  }

  /** An escape token kept as data, followed by a reserved byte, would leave an escape pair behind. */
  lemma ProtectedThenPair(u: seq<byte>, x: byte, w: seq<byte>)
    ensures x == EscapeToken && |w| > 0 && IsReserved(w[0]) ==> IsEscapePair(u + [x] + Unescape(w), |u|)
  {
    if x == EscapeToken && |w| > 0 && IsReserved(w[0]) {
      UnescapeFirstReserved(w);
      assert (u + [x] + Unescape(w))[|u| + 1] == Unescape(w)[0];
    }
  }

  /** Unescaping data that starts with a reserved byte gives data that starts with one. */
  lemma UnescapeFirstReserved(w: seq<byte>)
    requires |w| > 0 && IsReserved(w[0])
    ensures |Unescape(w)| > 0 && IsReserved(Unescape(w)[0])
  {
  }

  /**
   * Restarting the search at index 0 unescapes the wire form `2D 2D 2D 2B` of
   * the data `2D 2B` to `2B`; unescaping from left to right gives the data back.
   */
  lemma UnescapeAsWrittenLosesEscapedDash()
    ensures Escape([EscapeToken, StartToken]) == [EscapeToken, EscapeToken, EscapeToken, StartToken]
    ensures UnescapeAsWritten([EscapeToken, EscapeToken, EscapeToken, StartToken]) == [StartToken]
    ensures Unescape([EscapeToken, EscapeToken, EscapeToken, StartToken]) == [EscapeToken, StartToken]
  {
    assert Escape([StartToken]) == [EscapeToken, StartToken] by {
      assert [StartToken][1..] == [];
    }
    assert [EscapeToken, StartToken][1..] == [StartToken];
    var w: seq<byte> := [EscapeToken, EscapeToken, EscapeToken, StartToken];
    var w1: seq<byte> := [EscapeToken, EscapeToken, StartToken];
    var w2: seq<byte> := [EscapeToken, StartToken];
    var w3: seq<byte> := [StartToken];
    assert UnescapeAsWritten(w) == [StartToken] by {
      assert FindEscapedByte(w) == 0 && w[..0] + w[1..] == w1;
      assert FindEscapedByte(w1) == 0 && w1[..0] + w1[1..] == w2;
      assert FindEscapedByte(w2) == 0 && w2[..0] + w2[1..] == w3;
      assert FindEscapedByte(w3) == -1;
      assert UnescapeAsWritten(w3) == w3;
      assert UnescapeAsWritten(w2) == UnescapeAsWritten(w3);
      assert UnescapeAsWritten(w1) == UnescapeAsWritten(w2);
    }
    assert Unescape(w) == [EscapeToken, StartToken] by {
      assert w[2..] == w2;
      assert Unescape(w2) == w3 + Unescape([]);
    }
  }

  // ------------------------------------------ what the next call must wait for

  /**
   * `s` ends in an escape token that starts no escape pair yet: unescaping
   * from left to right reaches it as the last byte, with nothing after it.
   */
  predicate Dangling(s: seq<byte>)
    ensures Dangling(s) ==> |s| > 0 && s[|s| - 1] == EscapeToken
    decreases |s|
  {
    if |s| < 2 then |s| == 1 && s[0] == EscapeToken
    else if s[0] == EscapeToken && IsReserved(s[1]) then Dangling(s[2..])
    else Dangling(s[1..])
  }

  /** What of `s` can be unescaped already: all of it but a dangling escape token. */
  function Available(s: seq<byte>): (a: seq<byte>)
    ensures |s| - 1 <= |a| <= |s| && a == s[..|a|]
    ensures |a| < |s| <==> Dangling(s)
  {
    if Dangling(s) then s[..|s| - 1] else s
  }

  /** Escaped data leaves no dangling escape token: whether there is one depends on what follows it. */
  lemma {:induction false} DanglingAfterEscape(t: seq<byte>, q: seq<byte>)
    ensures Dangling(Escape(t) + q) == Dangling(q)
    decreases |t|
  {
    if t == [] {
      assert Escape(t) + q == q;
    } else {
      var e := Escape(t[1..]) + q;
      DanglingAfterEscape(t[1..], q);
      if IsReserved(t[0]) {
        assert Escape(t) + q == [EscapeToken, t[0]] + e;
        assert ([EscapeToken, t[0]] + e)[2..] == e;
      } else {
        assert Escape(t) + q == [t[0]] + e;
        DanglingAfterByte(t[0], e);
      }
    }
  }

  lemma DanglingAfterByte(b: byte, w: seq<byte>)
    requires b != EscapeToken
    ensures Dangling([b] + w) == Dangling(w)
  {
    assert ([b] + w)[1..] == w;
  }

  /** A frame on the wire is available in full, whatever follows it. */
  lemma AvailableAfterWire(f: seq<byte>, r: seq<byte>)
    requires f != [] && f[0] == StartToken
    ensures Available(WireFrame(f) + r) == WireFrame(f) + Available(r)
  {
    var w := WireFrame(f) + r;
    assert w == [StartToken] + (Escape(f[1..]) + r);
    DanglingAfterByte(StartToken, Escape(f[1..]) + r);
    DanglingAfterEscape(f[1..], r);
    if Dangling(r) {
      assert w[..|w| - 1] == WireFrame(f) + r[..|r| - 1];
    }
  }

  /** The number of bytes at the front of `s` that unescape to the first `n` bytes of `Unescape(s)`. */
  function WireLength(s: seq<byte>, n: nat): (m: nat)
    ensures m <= |s|
    decreases |s|
  {
    if n == 0 || s == [] then 0
    else if |s| >= 2 && s[0] == EscapeToken && IsReserved(s[1]) then 2 + WireLength(s[2..], n - 1)
    else 1 + WireLength(s[1..], n - 1)
  }

  /** The first `WireLength(s, n)` bytes of `s` unescape to exactly the first `n` bytes of the whole. */
  lemma {:induction false} WireLengthUnescapes(s: seq<byte>, n: nat)
    requires n <= |Unescape(s)|
    ensures Unescape(s[..WireLength(s, n)]) == Unescape(s)[..n]
    decreases |s|
  {
    if n == 0 || s == [] {
      assert s[..0] == [];
    } else if |s| >= 2 && s[0] == EscapeToken && IsReserved(s[1]) {
      var m := WireLength(s[2..], n - 1);
      WireLengthUnescapes(s[2..], n - 1);
      WireLengthPair(s, m, n);
    } else {
      var m := WireLength(s[1..], n - 1);
      WireLengthUnescapes(s[1..], n - 1);
      WireLengthPlain(s, m, n);
    }
  }

  lemma WireLengthPair(s: seq<byte>, m: nat, n: nat)
    requires |s| >= 2 && s[0] == EscapeToken && IsReserved(s[1]) && 0 < n <= |Unescape(s)|
    requires m <= |s| - 2 && Unescape(s[2..][..m]) == Unescape(s[2..])[..n - 1]
    ensures Unescape(s[..2 + m]) == Unescape(s)[..n]
  {
    HeadSplit(s, 2, m);
    UnescapePairFirst(s[1], s[2..][..m], 0);
    UnescapePairFirst(s[1], s[2..], 0);
    ConsPrefix(s[1], Unescape(s[2..]), n);
  }

  /** `s` and its prefix of length `k + m`, cut after the first `k` bytes. */
  lemma HeadSplit(s: seq<byte>, k: nat, m: nat)
    requires k + m <= |s|
    ensures s[..k + m] == s[..k] + s[k..][..m] && s == s[..k] + s[k..]
  {
  }

  lemma ConsPrefix(x: byte, r: seq<byte>, n: nat)
    requires 0 < n <= |r| + 1
    ensures ([x] + r)[..n] == [x] + r[..n - 1]
  {
  }

  lemma WireLengthPlain(s: seq<byte>, m: nat, n: nat)
    requires s != [] && !IsEscapePair(s, 0) && 0 < n <= |Unescape(s)|
    requires m <= |s| - 1 && n - 1 <= |Unescape(s[1..])| && Unescape(s[1..][..m]) == Unescape(s[1..])[..n - 1]
    ensures Unescape(s[..1 + m]) == Unescape(s)[..n]
  {
    HeadSplit(s, 1, m);
    PlainHead(s, s[1..][..m]);
    PlainHead(s, s[1..]);
    ConsPrefix(s[0], Unescape(s[1..]), n);
  }

  /** Bytes `v` after the first byte of `s`, where no escape pair starts at that byte. */
  lemma PlainHead(s: seq<byte>, v: seq<byte>)
    requires s != [] && !IsEscapePair(s, 0) && (v == [] || (|s| >= 2 && v[0] == s[1]))
    ensures Unescape(s[..1] + v) == [s[0]] + Unescape(v)
  {
    var u := s[..1] + v;
    assert u[1..] == v;
    if |u| >= 2 {
      assert u[0] == s[0] && u[1] == v[0];
    }
  }

  lemma WireLengthOfPair(b: byte, e: seq<byte>, n: nat)
    requires IsReserved(b) && n > 0
    ensures WireLength([EscapeToken, b] + e, n) == 2 + WireLength(e, n - 1)
  {
    assert ([EscapeToken, b] + e)[2..] == e;
  }

  lemma WireLengthOfPlain(b: byte, e: seq<byte>, n: nat)
    requires !IsReserved(b) && n > 0
    ensures WireLength([b] + e, n) == 1 + WireLength(e, n - 1)
  {
    assert ([b] + e)[1..] == e;
  }

  /** Escaped data followed by anything: its wire length is its escaped length. */
  lemma {:induction false} WireLengthOfEscape(t: seq<byte>, q: seq<byte>)
    ensures WireLength(Escape(t) + q, |t|) == |Escape(t)|
    decreases |t|
  {
    if t != [] {
      var h: seq<byte> := if IsReserved(t[0]) then [EscapeToken, t[0]] else [t[0]];
      EscapeHead(t, h);
      WireLengthOfEscape(t[1..], q);
      WireLengthHead(t, h, Escape(t[1..]), q);
    }
  }

  /** One step of `WireLengthOfEscape`: the escaped first byte `h` of `t` before the escaped rest `r`. */
  lemma WireLengthHead(t: seq<byte>, h: seq<byte>, r: seq<byte>, q: seq<byte>)
    requires t != [] && h == (if IsReserved(t[0]) then [EscapeToken, t[0]] else [t[0]])
    requires WireLength(r + q, |t| - 1) == |r|
    ensures WireLength(h + r + q, |t|) == |h + r|
  {
    assert h + r + q == h + (r + q);
    if IsReserved(t[0]) {
      WireLengthOfPair(t[0], r + q, |t|);
    } else {
      WireLengthOfPlain(t[0], r + q, |t|);
    }
  }

  // ----------------------------------------- `_unescape_buffer_old`

  /** `bytes.replace(bytes([a, b]), bytes([c]))`: non-overlapping, left to right. */
  function ReplacePair(s: seq<byte>, a: byte, b: byte, c: byte): seq<byte>
  {
    if |s| < 2 then s
    else if s[0] == a && s[1] == b then [c] + ReplacePair(s[2..], a, b, c)
    else [s[0]] + ReplacePair(s[1..], a, b, c)
  }

  /** `_unescape_buffer_old`: replace every `2D 2B` by `2B`, then every `2D 2D` by `2D`. */
  function UnescapeBufferOld(s: seq<byte>): seq<byte>
  {
    var s1 := if FindByteTuple(s, EscapeToken, StartToken) >= 0
      then ReplacePair(s, EscapeToken, StartToken, StartToken) else s;
    if FindByteTuple(s1, EscapeToken, EscapeToken) >= 0
      then ReplacePair(s1, EscapeToken, EscapeToken, EscapeToken) else s1
  }

  /** The guards of `_unescape_buffer_old` change nothing: a replacement without a match is the identity. */
  lemma {:induction false} ReplaceWithoutMatch(s: seq<byte>, a: byte, b: byte, c: byte)
    requires FindByteTuple(s, a, b) == -1
    ensures ReplacePair(s, a, b, c) == s
    decreases |s|
  {
    if |s| >= 2 {
      assert !PairAt(s, 0, a, b);
      forall k | 0 <= k < |s[1..]| ensures !PairAt(s[1..], k, a, b) {
        assert !PairAt(s, k + 1, a, b);
      }
      ReplaceWithoutMatch(s[1..], a, b, c);
    }
  }

  /** The escaped form with only the escape tokens still doubled. */
  function EscapeDashes(t: seq<byte>): seq<byte>
  {
    if t == [] then []
    else (if t[0] == EscapeToken then [EscapeToken, EscapeToken] else [t[0]]) + EscapeDashes(t[1..])
  }

  lemma EscapeStartsWithoutStartToken(t: seq<byte>)
    requires t != []
    ensures Escape(t)[0] != StartToken
  {
  }

  lemma {:induction false} ReplaceEscapedStarts(t: seq<byte>)
    ensures ReplacePair(Escape(t), EscapeToken, StartToken, StartToken) == EscapeDashes(t)
    decreases |t|
  {
    if t != [] {
      ReplaceEscapedStarts(t[1..]);
      if t[0] == EscapeToken {
        ReplaceStartsAfterDash(t);
      } else if t[0] == StartToken {
        ReplaceStartsAfterStart(t);
      } else {
        ReplaceStartsAfterOther(t);
      }
    }
  }

  lemma ReplaceStartsAfterDash(t: seq<byte>)
    requires t != [] && t[0] == EscapeToken
    requires ReplacePair(Escape(t[1..]), EscapeToken, StartToken, StartToken) == EscapeDashes(t[1..])
    ensures ReplacePair(Escape(t), EscapeToken, StartToken, StartToken) == EscapeDashes(t)
  {
    var e', d' := Escape(t[1..]), EscapeDashes(t[1..]);
    assert Escape(t) == [EscapeToken, EscapeToken] + e';
    PairFront(EscapeToken, EscapeToken, e');
    ReplaceKeepsFirst(EscapeToken, [EscapeToken] + e', EscapeToken, StartToken, StartToken);
    if t[1..] != [] {
      EscapeStartsWithoutStartToken(t[1..]);
    }
    ReplaceKeepsFirst(EscapeToken, e', EscapeToken, StartToken, StartToken);
    assert EscapeDashes(t) == [EscapeToken, EscapeToken] + d';
    PairFront(EscapeToken, EscapeToken, d');
  }

  lemma PairFront(a: byte, b: byte, w: seq<byte>)
    ensures [a, b] + w == [a] + ([b] + w)
  {
  }

  lemma ReplaceStartsAfterStart(t: seq<byte>)
    requires t != [] && t[0] == StartToken
    requires ReplacePair(Escape(t[1..]), EscapeToken, StartToken, StartToken) == EscapeDashes(t[1..])
    ensures ReplacePair(Escape(t), EscapeToken, StartToken, StartToken) == EscapeDashes(t)
  {
    assert Escape(t) == [EscapeToken, StartToken] + Escape(t[1..]);
    ReplaceAtPair(Escape(t[1..]), EscapeToken, StartToken, StartToken);
  }

  lemma ReplaceStartsAfterOther(t: seq<byte>)
    requires t != [] && !IsReserved(t[0])
    requires ReplacePair(Escape(t[1..]), EscapeToken, StartToken, StartToken) == EscapeDashes(t[1..])
    ensures ReplacePair(Escape(t), EscapeToken, StartToken, StartToken) == EscapeDashes(t)
  {
    assert Escape(t) == [t[0]] + Escape(t[1..]);
    ReplaceKeepsFirst(t[0], Escape(t[1..]), EscapeToken, StartToken, StartToken);
  }

  /** A byte that does not start the pair `a, b` is kept by the replacement. */
  lemma ReplaceKeepsFirst(x: byte, w: seq<byte>, a: byte, b: byte, c: byte)
    requires !(x == a && w != [] && w[0] == b)
    ensures ReplacePair([x] + w, a, b, c) == [x] + ReplacePair(w, a, b, c)
  {
    if w == [] {
      assert [x] + w == [x];
    } else {
      assert ([x] + w)[1..] == w;
    }
  }

  /** The pair `a, b` at the front is replaced by `c`. */
  lemma ReplaceAtPair(w: seq<byte>, a: byte, b: byte, c: byte)
    ensures ReplacePair([a, b] + w, a, b, c) == [c] + ReplacePair(w, a, b, c)
  {
    assert ([a, b] + w)[2..] == w;
  }

  lemma {:induction false} ReplaceEscapedDashes(t: seq<byte>)
    ensures ReplacePair(EscapeDashes(t), EscapeToken, EscapeToken, EscapeToken) == t
    decreases |t|
  {
    if t != [] {
      var x, t' := t[0], t[1..];
      var d' := EscapeDashes(t');
      ReplaceEscapedDashes(t');
      if x == EscapeToken {
        assert EscapeDashes(t) == [EscapeToken, EscapeToken] + d';
        assert (EscapeDashes(t))[2..] == d';
      } else {
        assert EscapeDashes(t) == [x] + d';
        assert (EscapeDashes(t))[1..] == d';
      }
      assert t == [x] + t';
    }
  }

  /** The replacement-based `_unescape_buffer_old` gives back any escaped data. */
  lemma UnescapeBufferOldRoundTrip(t: seq<byte>)
    ensures UnescapeBufferOld(Escape(t)) == t
  {
    var s := Escape(t);
    ReplaceEscapedStarts(t);
    if FindByteTuple(s, EscapeToken, StartToken) < 0 {
      ReplaceWithoutMatch(s, EscapeToken, StartToken, StartToken);
    }
    var s1 := EscapeDashes(t);
    ReplaceEscapedDashes(t);
    if FindByteTuple(s1, EscapeToken, EscapeToken) < 0 {
      ReplaceWithoutMatch(s1, EscapeToken, EscapeToken, EscapeToken);
    }
  }

  // ====================================================== start-token search

  /** The first index at or after `j` that does not hold a start token, or `|buf|`. */
  function RunEnd(buf: seq<byte>, j: nat): (e: nat)
    requires j <= |buf|
    ensures j <= e <= |buf|
    ensures forall k :: j <= k < e ==> buf[k] == StartToken
    ensures e < |buf| ==> buf[e] != StartToken
    decreases |buf| - j
  {
    if j == |buf| || buf[j] != StartToken then j else RunEnd(buf, j + 1)
  }

  /**
   * The search loop at the top of `parse`, from index `i`: a start token
   * preceded by an escape token in the raw buffer is ignored; a run of two or
   * more start tokens (an end-of-block marker) is skipped together with the byte
   * after it; a single start token is the start of a frame. -1 when none is found.
   */
  function FindStart(buf: seq<byte>, i: nat): (r: int)
    ensures r == -1 || i <= r < |buf|
    decreases |buf| - i
  {
    if i >= |buf| then -1
    else if buf[i] != StartToken || (i > 0 && buf[i - 1] == EscapeToken) then FindStart(buf, i + 1)
    else
      var j := RunEnd(buf, i + 1);
      if j == i + 1 then i else FindStart(buf, j + 1)
  }

  /** What the search finds is an unescaped start token, at or after `i`, not followed by another. */
  lemma {:induction false} FindStartIsStart(buf: seq<byte>, i: nat)
    ensures FindStart(buf, i) == -1 || (i <= FindStart(buf, i) < |buf| && buf[FindStart(buf, i)] == StartToken)
    ensures FindStart(buf, i) >= 0 ==> !(FindStart(buf, i) > 0 && buf[FindStart(buf, i) - 1] == EscapeToken)
    ensures FindStart(buf, i) >= 0 ==> (FindStart(buf, i) + 1 == |buf| || buf[FindStart(buf, i) + 1] != StartToken)
    decreases |buf| - i
  {
    if i < |buf| {
      if buf[i] != StartToken || (i > 0 && buf[i - 1] == EscapeToken) {
        FindStartIsStart(buf, i + 1);
      } else if RunEnd(buf, i + 1) != i + 1 {
        FindStartIsStart(buf, RunEnd(buf, i + 1) + 1);
      }
    }
  }

  /** One turn of the search loop over a byte that cannot start a frame. */
  lemma FindStartPasses(buf: seq<byte>, i: nat)
    requires i < |buf| && !(buf[i] == StartToken && !(i > 0 && buf[i - 1] == EscapeToken))
    ensures FindStart(buf, i) == FindStart(buf, i + 1)
  {
  }

  /** One turn of the search loop over an end-of-block run `buf[i..j]`. */
  lemma FindStartSkipsRun(buf: seq<byte>, i: nat, j: nat)
    requires i < |buf| && buf[i] == StartToken && !(i > 0 && buf[i - 1] == EscapeToken)
    requires j == RunEnd(buf, i + 1) && j != i + 1
    ensures FindStart(buf, i) == FindStart(buf, j + 1)
  {
  }

  /** One turn of the search loop that finds the frame start. */
  lemma FindStartAccepts(buf: seq<byte>, i: nat)
    requires i < |buf| && buf[i] == StartToken && !(i > 0 && buf[i - 1] == EscapeToken)
    requires RunEnd(buf, i + 1) == i + 1
    ensures FindStart(buf, i) == i
  {
  }

  /** A start token that is neither escaped nor part of a run of start tokens. */
  predicate LoneStart(buf: seq<byte>, k: nat) {
    k < |buf| && buf[k] == StartToken
    && !(k > 0 && (buf[k - 1] == EscapeToken || buf[k - 1] == StartToken))
    && !(k + 1 < |buf| && buf[k + 1] == StartToken)
  }

  /** The search never passes over a lone start token. */
  lemma {:induction false} FindStartFindsLoneStart(buf: seq<byte>, i: nat, k: nat)
    requires i <= k && LoneStart(buf, k)
    ensures 0 <= FindStart(buf, i) <= k
    decreases |buf| - i
  {
    if i < k && (buf[i] != StartToken || (i > 0 && buf[i - 1] == EscapeToken)) {
      FindStartFindsLoneStart(buf, i + 1, k);
    } else if i < k && RunEnd(buf, i + 1) != i + 1 {
      FindStartFindsLoneStart(buf, RunEnd(buf, i + 1) + 1, k);
    }
  }

  /** Past bytes whose start tokens are all escaped, the search lands on the first acceptable one. */
  lemma {:induction false} FindStartAfterGarbage(buf: seq<byte>, i: nat, k: nat)
    requires i <= k < |buf| && buf[k] == StartToken
    requires forall l :: i <= l < k && buf[l] == StartToken ==> l > 0 && buf[l - 1] == EscapeToken
    requires !(k > 0 && buf[k - 1] == EscapeToken)
    requires k + 1 == |buf| || buf[k + 1] != StartToken
    ensures FindStart(buf, i) == k
    decreases k - i
  {
    if i < k {
      FindStartAfterGarbage(buf, i + 1, k);
    }
  }

  /** A buffer that ends in a run of two or more start tokens (an end-of-block marker) holds no frame start there. */
  lemma FindStartSkipsEndOfBlock(buf: seq<byte>, i: nat)
    requires i + 2 <= |buf| && !(i > 0 && buf[i - 1] == EscapeToken)
    requires forall l :: i <= l < |buf| ==> buf[l] == StartToken
    ensures FindStart(buf, i) == -1
  {
    assert RunEnd(buf, i + 1) == |buf| by {
      RunEndOfStarts(buf, i + 1);
    }
  }

  /** Without a start token at or after `i` there is nothing to find. */
  lemma {:induction false} FindStartWithoutStartToken(buf: seq<byte>, i: nat)
    requires forall k :: i <= k < |buf| ==> buf[k] != StartToken
    ensures FindStart(buf, i) == -1
    decreases |buf| - i
  {
    if i < |buf| {
      FindStartWithoutStartToken(buf, i + 1);
    }
  }

  lemma {:induction false} RunEndOfStarts(buf: seq<byte>, j: nat)
    requires j <= |buf|
    requires forall l :: j <= l < |buf| ==> buf[l] == StartToken
    ensures RunEnd(buf, j) == |buf|
    decreases |buf| - j
  {
    if j < |buf| {
      RunEndOfStarts(buf, j + 1);
    }
  }

  /** How many escape tokens stand directly before index `k`. */
  function EscapeRun(buf: seq<byte>, k: nat): (n: nat)
    requires k <= |buf|
    ensures n <= k
  {
    if k == 0 || buf[k - 1] != EscapeToken then 0 else EscapeRun(buf, k - 1) + 1
  }

  /** The run before `k` is the longest one: escape tokens all, and not preceded by another. */
  lemma {:induction false} EscapeRunIsRun(buf: seq<byte>, k: nat)
    requires k <= |buf|
    ensures var n := EscapeRun(buf, k);
      && (forall l :: k - n <= l < k ==> buf[l] == EscapeToken)
      && (n < k ==> buf[k - n - 1] != EscapeToken)
    decreases k
  {
    if k > 0 && buf[k - 1] == EscapeToken {
      EscapeRunIsRun(buf, k - 1);
    }
  }

  /**
   * Whether the byte at `k` is protected, on the wire: an odd run of escape
   * tokens before it ends in an escape token of its own, while an even run is
   * made of escaped dashes only.
   */
  predicate EscapedOnWire(buf: seq<byte>, k: nat)
    requires k <= |buf|
  {
    EscapeRun(buf, k) % 2 == 1
  }

  /**
   * The start-token search as the code evidently intends it: the same loop as
   * `FindStart`, but a start token counts as escaped only after an odd run of
   * escape tokens, so that one after an escaped dash `--` still starts a frame.
   */
  function FindWireStart(buf: seq<byte>, i: nat): (r: int)
    ensures r == -1 || i <= r < |buf|
    decreases |buf| - i
  {
    if i >= |buf| then -1
    else if buf[i] != StartToken || EscapedOnWire(buf, i) then FindWireStart(buf, i + 1)
    else
      var j := RunEnd(buf, i + 1);
      if j == i + 1 then i else FindWireStart(buf, j + 1)
  }

  /** What the corrected search finds is a start token that is not protected and not followed by another. */
  lemma {:induction false} FindWireStartIsStart(buf: seq<byte>, i: nat)
    ensures var r := FindWireStart(buf, i);
      r == -1 || (buf[r] == StartToken && !EscapedOnWire(buf, r) && (r + 1 == |buf| || buf[r + 1] != StartToken))
    decreases |buf| - i
  {
    if i < |buf| {
      if buf[i] != StartToken || EscapedOnWire(buf, i) {
        assert FindWireStart(buf, i) == FindWireStart(buf, i + 1);
        FindWireStartIsStart(buf, i + 1);
      } else {
        var j := RunEnd(buf, i + 1);
        if j != i + 1 {
          assert FindWireStart(buf, i) == FindWireStart(buf, j + 1);
          FindWireStartIsStart(buf, j + 1);
        } else {
          assert FindWireStart(buf, i) == i;
        }
      }
    }
  }

  /** Past bytes whose start tokens are all protected, the corrected search lands on the first start token that is not. */
  lemma {:induction false} FindWireStartAfterGarbage(buf: seq<byte>, i: nat, k: nat)
    requires i <= k < |buf| && buf[k] == StartToken && !EscapedOnWire(buf, k)
    requires forall l :: i <= l < k && buf[l] == StartToken ==> EscapedOnWire(buf, l)
    requires k + 1 == |buf| || buf[k + 1] != StartToken
    ensures FindWireStart(buf, i) == k
    decreases k - i
  {
    if i < k {
      FindWireStartAfterGarbage(buf, i + 1, k);
    }
  }

  /** Bytes after `k` do not change the run of escape tokens before it. */
  lemma {:induction false} EscapeRunPrefix(a: seq<byte>, b: seq<byte>, k: nat)
    requires k <= |a|
    ensures EscapeRun(a + b, k) == EscapeRun(a, k)
    decreases k
  {
    if k > 0 {
      assert (a + b)[k - 1] == a[k - 1];
      EscapeRunPrefix(a, b, k - 1);
    }
  }

  /** The run of escape tokens that ends `a + b`: that of `b`, extended into `a` when `b` is escape tokens only. */
  lemma {:induction false} EscapeRunConcat(a: seq<byte>, b: seq<byte>)
    ensures EscapeRun(a + b, |a + b|)
      == if EscapeRun(b, |b|) == |b| then EscapeRun(a, |a|) + |b| else EscapeRun(b, |b|)
    decreases |b|
  {
    if b == [] {
      assert a + b == a;
    } else {
      var b' := b[..|b| - 1];
      assert a + b' == (a + b)[..|a + b| - 1];
      if b[|b| - 1] == EscapeToken {
        EscapeRunConcat(a, b');
        EscapeRunDropLast(a + b);
        EscapeRunDropLast(b);
      }
    }
  }

  /** A run of escape tokens that ends the buffer is one longer than the one before its last byte. */
  lemma EscapeRunDropLast(s: seq<byte>)
    requires s != [] && s[|s| - 1] == EscapeToken
    ensures EscapeRun(s, |s|) == EscapeRun(s[..|s| - 1], |s| - 1) + 1
  {
    EscapeRunPrefix(s[..|s| - 1], [s[|s| - 1]], |s| - 1);
    assert s[..|s| - 1] + [s[|s| - 1]] == s;
  }

  // ============================================================== decoding

  /**
   * `ResponseFrame`. As `parse` fills it, `crc16` holds the calculated
   * checksum, `address` is 0 unless the command is a plant command, and
   * `frameType` is unset for a short non-plant command.
   */
  datatype ResponseFrame = ResponseFrame(
    command: byte,
    oid: nat,
    crc16: nat,
    crcOk: bool,
    address: nat,
    frameLength: nat,
    frameType: Option<FrameType>,
    payload: seq<byte>)

  /** What the straight-line part of `parse` makes of an unescaped buffer that starts at a start token. */
  datatype Decoded =
    | Incomplete
    | BadCommand(command: byte)
    | Complete(frame: ResponseFrame, received: nat, crcAt: nat)

  /** The header length for command `c`: start token, command, a 1-byte length and the id; 4 more for a plant address, 1 more for a 2-byte length. */
  function HeaderLength(proto: Rctclient, c: byte): nat {
    1 + 1 + 1 + 0 + 4 + (if proto.isPlant(c) then 4 else 0) + (if proto.isLong(c) then 1 else 0)
  }

  /** The length field of frame `u` of a known command `c`, one byte or two. */
  function DataLength(proto: Rctclient, c: byte, u: seq<byte>): nat
    requires |u| >= HeaderLength(proto, c)
  {
    if proto.isLong(c) then BigEndian(u[2..4]) else u[2] as nat
  }

  /** How much the length field counts besides the payload: the id, and for a plant command the address too. */
  function IdLength(proto: Rctclient, c: byte): nat {
    if proto.isPlant(c) then 8 else 4
  }

  /**
   * The header, payload and checksum decoding of `parse`, on the unescaped
   * buffer `u` whose index 0 is the start token.
   */
  function Decode(proto: Rctclient, u: seq<byte>): Decoded
  {
    if |u| - 1 < BufferLenCommand then Incomplete
    else if !proto.isCommand(u[1]) || u[1] == proto.extension then BadCommand(u[1])
    else if |u| < HeaderLength(proto, u[1]) then Incomplete
    else DecodeFrame(proto, u[1], u)
  }

  /** Where the address (of a plant command) or else the id starts in the header. */
  function AddressIndex(proto: Rctclient, c: byte): nat {
    if proto.isLong(c) then 4 else 3
  }

  function OidIndex(proto: Rctclient, c: byte): nat {
    if proto.isPlant(c) then AddressIndex(proto, c) + 4 else AddressIndex(proto, c)
  }

  /** The frame length the header announces: header, payload and checksum. */
  function FrameLength(proto: Rctclient, c: byte, u: seq<byte>): int
    requires |u| >= HeaderLength(proto, c)
  {
    (HeaderLength(proto, c) - IdLength(proto, c)) + DataLength(proto, c, u) + FrameLengthCrc16
  }

  /** The payload length: what the length field counts besides the id and the address. May be negative. */
  function PayloadLength(proto: Rctclient, c: byte, u: seq<byte>): int
    requires |u| >= HeaderLength(proto, c)
  {
    DataLength(proto, c, u) - IdLength(proto, c)
  }

  function Address(proto: Rctclient, c: byte, u: seq<byte>): nat
    requires |u| >= HeaderLength(proto, c)
  {
    if proto.isPlant(c) then BigEndian(u[AddressIndex(proto, c)..AddressIndex(proto, c) + 4]) else 0
  }

  function Oid(proto: Rctclient, c: byte, u: seq<byte>): nat
    requires |u| >= HeaderLength(proto, c)
  {
    BigEndian(u[OidIndex(proto, c)..OidIndex(proto, c) + 4])
  }

  /** The frame type `parse` reports: STANDARD for a long command, PLANT for a short plant one, else unset. */
  function FrameTypeOf(proto: Rctclient, c: byte): Option<FrameType> {
    if proto.isLong(c) then Some(Standard) else if proto.isPlant(c) then Some(Plant) else None
  }

  /** The part of `Decode` after the whole header of a known command `c` has arrived. */
  function DecodeFrame(proto: Rctclient, c: byte, u: seq<byte>): Decoded
    requires |u| >= HeaderLength(proto, c)
  {
    var frameLength := FrameLength(proto, c, u);
    var payloadLength := PayloadLength(proto, c, u);
    var i := OidIndex(proto, c) + 4;
    if !(frameLength > 0 && |u| >= frameLength) then Incomplete
    else
      var payload := if payloadLength <= 0 then [] else u[i..i + payloadLength];
      var crcAt := i + payloadLength;
      var received := BigEndian(u[crcAt..crcAt + FrameLengthCrc16]);
      var calculated := proto.crc16(u[1..crcAt]);
      Complete(ResponseFrame(c, Oid(proto, c, u), calculated, received == calculated, Address(proto, c, u),
          frameLength, FrameTypeOf(proto, c), payload),
        received, crcAt)
  }

  /**
   * Where a decoded frame's fields come from: the id in the last four header
   * bytes, the plant address in the four before them, the payload between
   * header and checksum, the checksum in the two bytes that end the frame,
   * computed over everything between start token and checksum.
   */
  lemma DecodeLayout(proto: Rctclient, u: seq<byte>)
    requires Decode(proto, u).Complete?
    ensures var Complete(f, received, crcAt) := Decode(proto, u);
      var hl := HeaderLength(proto, u[1]);
      && hl <= |u| && f.command == u[1] && proto.isCommand(u[1]) && u[1] != proto.extension
      && 3 <= crcAt && crcAt + FrameLengthCrc16 == f.frameLength <= |u|
      && f.oid == BigEndian(u[hl - 4..hl])
      && f.address == (if proto.isPlant(u[1]) then BigEndian(u[hl - 8..hl - 4]) else 0)
      && f.payload == (if crcAt <= hl then [] else u[hl..crcAt])
      && f.frameLength == hl - IdLength(proto, u[1]) + DataLength(proto, u[1], u) + FrameLengthCrc16
      && received == BigEndian(u[crcAt..crcAt + 2])
      && f.crc16 == proto.crc16(u[1..crcAt])
      && (f.crcOk <==> received == f.crc16)
  {
  }

  /** Once a buffer decides the outcome, bytes appended to it change nothing. */
  lemma DecodeExtends(proto: Rctclient, u: seq<byte>, v: seq<byte>)
    requires !Decode(proto, u).Incomplete?
    ensures Decode(proto, u + v) == Decode(proto, u)
  {
    assert (u + v)[1] == u[1];
    if Decode(proto, u).Complete? {
      DecodeFrameExtends(proto, u[1], u, v);
    }
  }

  /**
   * `f` is one whole unescaped frame, from its start token to its checksum,
   * that decodes as `fr` with a matching checksum.
   */
  predicate WholeFrame(proto: Rctclient, f: seq<byte>, fr: ResponseFrame) {
    && |f| >= 2 && f[0] == StartToken && fr.crcOk && fr.frameLength == |f|
    && Decode(proto, f) == Complete(fr, fr.crc16, |f| - FrameLengthCrc16)
  }

  /** Whatever follows a whole frame, it decodes the same. */
  lemma WholeFrameExtends(proto: Rctclient, f: seq<byte>, fr: ResponseFrame, rest: seq<byte>)
    requires WholeFrame(proto, f, fr)
    ensures Decode(proto, f + rest) == Complete(fr, fr.crc16, |f| - FrameLengthCrc16)
  {
    DecodeExtends(proto, f, rest);
  }

  /** Every proper prefix of a whole frame decodes as incomplete: the parser waits for the rest. */
  lemma WholeFramePrefix(proto: Rctclient, f: seq<byte>, fr: ResponseFrame, n: nat)
    requires WholeFrame(proto, f, fr) && n < |f|
    ensures Decode(proto, f[..n]).Incomplete?
  {
    var u := f[..n];
    if n >= 3 {
      var c := f[1];
      assert u[1] == c;
      if n >= HeaderLength(proto, c) {
        HeaderExtends(proto, c, u, f);
        assert FrameLength(proto, c, u) == FrameLength(proto, c, f);
      }
    }
  }

  lemma DecodeFrameExtends(proto: Rctclient, c: byte, u: seq<byte>, v: seq<byte>)
    requires |u| >= HeaderLength(proto, c) && DecodeFrame(proto, c, u).Complete?
    ensures DecodeFrame(proto, c, u + v) == DecodeFrame(proto, c, u)
  {
    var w := u + v;
    assert w[..|u|] == u;
    HeaderExtends(proto, c, u, w);
    var i, p := OidIndex(proto, c) + 4, PayloadLength(proto, c, u);
    if p > 0 {
      PrefixSlice(u, w, i, i + p);
    }
    PrefixSlice(u, w, i + p, i + p + FrameLengthCrc16);
    PrefixSlice(u, w, 1, i + p);
    DecodeFrameSame(proto, c, u, w);
  }

  /** Two buffers that agree on every field a decoded frame reads decode alike. */
  lemma DecodeFrameSame(proto: Rctclient, c: byte, u: seq<byte>, w: seq<byte>)
    requires HeaderLength(proto, c) <= |u| <= |w| && DecodeFrame(proto, c, u).Complete?
    requires FrameLength(proto, c, w) == FrameLength(proto, c, u) && PayloadLength(proto, c, w) == PayloadLength(proto, c, u)
    requires Oid(proto, c, w) == Oid(proto, c, u) && Address(proto, c, w) == Address(proto, c, u)
    requires var i, p := OidIndex(proto, c) + 4, PayloadLength(proto, c, u);
      && 3 <= i + p && i + p + FrameLengthCrc16 <= |u|
      && (p > 0 ==> w[i..i + p] == u[i..i + p])
      && w[i + p..i + p + FrameLengthCrc16] == u[i + p..i + p + FrameLengthCrc16] && w[1..i + p] == u[1..i + p]
    ensures DecodeFrame(proto, c, w) == DecodeFrame(proto, c, u)
  {
  }

  /**
   * A whole frame whose two checksum bytes, after the header, are replaced by
   * `p` decodes to the same fields, with `p` as the received checksum, which
   * matches exactly when it equals the computed one, whatever bytes follow.
   */
  lemma DecodeWrongChecksum(proto: Rctclient, f: seq<byte>, fr: ResponseFrame, p: seq<byte>, rest: seq<byte>)
    requires WholeFrame(proto, f, fr) && |p| == 2 && HeaderLength(proto, f[1]) <= |f| - FrameLengthCrc16
    ensures Decode(proto, f[..|f| - FrameLengthCrc16] + p + rest)
      == Complete(fr.(crcOk := BigEndian(p) == fr.crc16), BigEndian(p), |f| - FrameLengthCrc16)
  {
    var c, n := f[1], |f| - FrameLengthCrc16;
    var w := f[..n] + p + rest;
    DecodeLayout(proto, f);
    ChecksumReplaced(proto, c, f, p, rest, n);
    DecodeFrameChecksum(proto, c, f, w, p, n);
  }

  /** The fields of a frame whose checksum bytes are replaced, read from the bytes before them, stay the same. */
  lemma ChecksumReplaced(proto: Rctclient, c: byte, f: seq<byte>, p: seq<byte>, rest: seq<byte>, n: nat)
    requires HeaderLength(proto, c) <= n && n + FrameLengthCrc16 == |f| && |p| == 2 && c == f[1]
    requires OidIndex(proto, c) + 4 + PayloadLength(proto, c, f) == n
    ensures var w := f[..n] + p + rest; var q := PayloadLength(proto, c, f);
      && |w| >= |f| && w[1] == c
      && FrameLength(proto, c, w) == FrameLength(proto, c, f) && PayloadLength(proto, c, w) == q
      && Oid(proto, c, w) == Oid(proto, c, f) && Address(proto, c, w) == Address(proto, c, f)
      && (q > 0 ==> w[n - q..n] == f[n - q..n])
      && w[n..n + FrameLengthCrc16] == p && w[1..n] == f[1..n]
  {
    var h := f[..n];
    var w := h + p + rest;
    assert w[..n] == h && f[..n] == h;
    HeaderExtends(proto, c, h, f);
    HeaderExtends(proto, c, h, w);
    var q := PayloadLength(proto, c, f);
    if q > 0 {
      PrefixSlice(h, f, n - q, n);
      PrefixSlice(h, w, n - q, n);
    }
    PrefixSlice(h, f, 1, n);
    PrefixSlice(h, w, 1, n);
    assert w[n..n + FrameLengthCrc16] == p;
  }

  /** A buffer that agrees with `u` on every field but the checksum decodes alike, with its own checksum received. */
  lemma DecodeFrameChecksum(proto: Rctclient, c: byte, u: seq<byte>, w: seq<byte>, p: seq<byte>, n: nat)
    requires HeaderLength(proto, c) <= |u| <= |w| && DecodeFrame(proto, c, u).Complete? && |p| == 2
    requires FrameLength(proto, c, w) == FrameLength(proto, c, u) && PayloadLength(proto, c, w) == PayloadLength(proto, c, u)
    requires Oid(proto, c, w) == Oid(proto, c, u) && Address(proto, c, w) == Address(proto, c, u)
    requires var q := PayloadLength(proto, c, u);
      && OidIndex(proto, c) + 4 + q == n && 3 <= n && n + FrameLengthCrc16 <= |u|
      && (q > 0 ==> w[n - q..n] == u[n - q..n])
      && w[n..n + FrameLengthCrc16] == p && w[1..n] == u[1..n]
    ensures var d := DecodeFrame(proto, c, u);
      DecodeFrame(proto, c, w) == Complete(d.frame.(crcOk := BigEndian(p) == d.frame.crc16), BigEndian(p), d.crcAt)
  {
  }

  lemma HeaderExtends(proto: Rctclient, c: byte, u: seq<byte>, w: seq<byte>)
    requires HeaderLength(proto, c) <= |u| <= |w| && w[..|u|] == u
    ensures DataLength(proto, c, w) == DataLength(proto, c, u)
    ensures Oid(proto, c, w) == Oid(proto, c, u)
    ensures Address(proto, c, w) == Address(proto, c, u)
    ensures OidIndex(proto, c) + 4 == HeaderLength(proto, c)
  {
    var hl := HeaderLength(proto, c);
    PrefixSlice(u, w, 2, 4);
    PrefixSlice(u, w, hl - 4, hl);
    if proto.isPlant(c) {
      PrefixSlice(u, w, hl - 8, hl - 4);
    }
  }

  lemma PrefixSlice(u: seq<byte>, w: seq<byte>, a: nat, b: nat)
    requires a <= b <= |u| <= |w| && w[..|u|] == u
    ensures w[a..b] == u[a..b]
  {
    forall k | 0 <= k < b - a ensures w[a..b][k] == u[a..b][k] {
      assert w[a + k] == w[..|u|][a + k];
    }
  }

  // ------------------------------------------------------- the sender's side

  /** What a sender puts between the start token and the checksum of a frame of command `c`. */
  function FrameBody(proto: Rctclient, c: byte, address: nat, oid: nat, payload: seq<byte>): seq<byte>
  {
    [c] + ToBigEndian(|payload| + IdLength(proto, c), if proto.isLong(c) then 2 else 1)
      + (if proto.isPlant(c) then ToBigEndian(address, 4) else [])
      + ToBigEndian(oid, 4) + payload
  }

  /** An unescaped frame: start token, body, and the checksum of the body. */
  function EncodeFrame(proto: Rctclient, c: byte, address: nat, oid: nat, payload: seq<byte>): seq<byte>
  {
    var body := FrameBody(proto, c, address, oid, payload);
    [StartToken] + body + ToBigEndian(proto.crc16(body), 2)
  }

  /** The frames a sender can build: a supported command, and every field within its width. */
  predicate Encodable(proto: Rctclient, c: byte, address: nat, oid: nat, payload: seq<byte>) {
    && proto.isCommand(c) && c != proto.extension
    && |payload| + IdLength(proto, c) < (if proto.isLong(c) then 0x1_0000 else 0x100)
    && address < 0x1_0000_0000 && oid < 0x1_0000_0000
    && proto.crc16(FrameBody(proto, c, address, oid, payload)) < 0x1_0000
  }

  /** The frame `parse` should report for a frame the sender built from these fields. */
  function SentFrame(proto: Rctclient, c: byte, address: nat, oid: nat, payload: seq<byte>): ResponseFrame {
    ResponseFrame(c, oid, proto.crc16(FrameBody(proto, c, address, oid, payload)), true,
      if proto.isPlant(c) then address else 0,
      |EncodeFrame(proto, c, address, oid, payload)|, FrameTypeOf(proto, c), payload)
  }

  /**
   * Decoding reads back what the sender encoded, with a matching checksum,
   * whatever bytes follow the frame in the buffer.
   */
  lemma DecodeEncodedFrame(proto: Rctclient, c: byte, address: nat, oid: nat, payload: seq<byte>, rest: seq<byte>)
    requires Encodable(proto, c, address, oid, payload)
    ensures var f := EncodeFrame(proto, c, address, oid, payload);
      Decode(proto, f + rest)
      == Complete(SentFrame(proto, c, address, oid, payload),
                  proto.crc16(FrameBody(proto, c, address, oid, payload)), |f| - FrameLengthCrc16)
  {
    var f := EncodeFrame(proto, c, address, oid, payload);
    DecodeEncodedAlone(proto, c, address, oid, payload);
    DecodeExtends(proto, f, rest);
  }

  lemma DecodeEncodedAlone(proto: Rctclient, c: byte, address: nat, oid: nat, payload: seq<byte>)
    requires Encodable(proto, c, address, oid, payload)
    ensures var f := EncodeFrame(proto, c, address, oid, payload);
      Decode(proto, f)
      == Complete(SentFrame(proto, c, address, oid, payload),
                  proto.crc16(FrameBody(proto, c, address, oid, payload)), |f| - FrameLengthCrc16)
  {
    EncodedHeaderRead(proto, c, address, oid, payload);
    EncodedTailRead(proto, c, address, oid, payload);
    DecodeByFields(proto, c, EncodeFrame(proto, c, address, oid, payload), oid,
      if proto.isPlant(c) then address else 0, payload, proto.crc16(FrameBody(proto, c, address, oid, payload)));
  }

  /** Every frame the sender can build is a whole frame that reads back as what was sent. */
  lemma EncodedWholeFrame(proto: Rctclient, c: byte, address: nat, oid: nat, payload: seq<byte>)
    requires Encodable(proto, c, address, oid, payload)
    ensures WholeFrame(proto, EncodeFrame(proto, c, address, oid, payload), SentFrame(proto, c, address, oid, payload))
  {
    EncodedStart(proto, c, address, oid, payload);
    DecodeEncodedAlone(proto, c, address, oid, payload);
  }

  lemma EncodedStart(proto: Rctclient, c: byte, address: nat, oid: nat, payload: seq<byte>)
    ensures var f := EncodeFrame(proto, c, address, oid, payload);
      |f| >= 2 && f[0] == StartToken
  {
  }

  /** The header of an encoded frame, as the sender laid it out. */
  function EncodedHeader(proto: Rctclient, c: byte, address: nat, oid: nat, payload: seq<byte>): seq<byte>
  {
    [StartToken, c] + ToBigEndian(|payload| + IdLength(proto, c), if proto.isLong(c) then 2 else 1)
      + (if proto.isPlant(c) then ToBigEndian(address, 4) else []) + ToBigEndian(oid, 4)
  }

  lemma EncodedSplits(proto: Rctclient, c: byte, address: nat, oid: nat, payload: seq<byte>)
    ensures var h := EncodedHeader(proto, c, address, oid, payload);
      var body := FrameBody(proto, c, address, oid, payload);
      && body == h[1..] + payload
      && EncodeFrame(proto, c, address, oid, payload) == h + payload + ToBigEndian(proto.crc16(body), 2)
  {
  }

  lemma EncodedHeaderRead(proto: Rctclient, c: byte, address: nat, oid: nat, payload: seq<byte>)
    requires Encodable(proto, c, address, oid, payload)
    ensures var f := EncodeFrame(proto, c, address, oid, payload);
      && |f| == HeaderLength(proto, c) + |payload| + FrameLengthCrc16 && f[1] == c
      && DataLength(proto, c, f) == |payload| + IdLength(proto, c)
      && Oid(proto, c, f) == oid
      && Address(proto, c, f) == (if proto.isPlant(c) then address else 0)
  {
    var l := ToBigEndian(|payload| + IdLength(proto, c), if proto.isLong(c) then 2 else 1);
    var a: seq<byte> := if proto.isPlant(c) then ToBigEndian(address, 4) else [];
    var h := EncodedHeader(proto, c, address, oid, payload);
    var body := FrameBody(proto, c, address, oid, payload);
    var f := EncodeFrame(proto, c, address, oid, payload);
    EncodedSplits(proto, c, address, oid, payload);
    HeaderFields(proto, c, l, a, ToBigEndian(oid, 4), h);
    FrameParts(h, payload, ToBigEndian(proto.crc16(body), 2), f);
    HeaderFieldsExtend(proto, c, h, f);
    BigEndianOfToBigEndian(|payload| + IdLength(proto, c), |l|);
    BigEndianOfToBigEndian(oid, 4);
    if proto.isPlant(c) {
      BigEndianOfToBigEndian(address, 4);
    }
  }

  lemma EncodedTailRead(proto: Rctclient, c: byte, address: nat, oid: nat, payload: seq<byte>)
    requires Encodable(proto, c, address, oid, payload)
    ensures var f := EncodeFrame(proto, c, address, oid, payload);
      var hl := HeaderLength(proto, c);
      var crc := proto.crc16(FrameBody(proto, c, address, oid, payload));
      && |f| == hl + |payload| + FrameLengthCrc16
      && f[hl..hl + |payload|] == payload
      && BigEndian(f[hl + |payload|..|f|]) == crc
      && f[1..hl + |payload|] == FrameBody(proto, c, address, oid, payload)
  {
    var h := EncodedHeader(proto, c, address, oid, payload);
    var body := FrameBody(proto, c, address, oid, payload);
    var f := EncodeFrame(proto, c, address, oid, payload);
    EncodedSplits(proto, c, address, oid, payload);
    assert |h| == HeaderLength(proto, c);
    FrameParts(h, payload, ToBigEndian(proto.crc16(body), 2), f);
    BigEndianOfToBigEndian(proto.crc16(body), 2);
  }

  /** The header fields read back from a header laid out field by field. */
  lemma HeaderFields(proto: Rctclient, c: byte, l: seq<byte>, a: seq<byte>, o: seq<byte>, h: seq<byte>)
    requires |l| == (if proto.isLong(c) then 2 else 1) && |a| == (if proto.isPlant(c) then 4 else 0) && |o| == 4
    requires h == [StartToken, c] + l + a + o
    ensures |h| == HeaderLength(proto, c) && h[1] == c
    ensures DataLength(proto, c, h) == BigEndian(l)
    ensures Oid(proto, c, h) == BigEndian(o)
    ensures Address(proto, c, h) == (if proto.isPlant(c) then BigEndian(a) else 0)
  {
    HeaderLengthField(proto, c, l, a, o, h);
    HeaderOid(proto, c, l, a, o, h);
    HeaderAddress(proto, c, l, a, o, h);
  }

  lemma HeaderLengthField(proto: Rctclient, c: byte, l: seq<byte>, a: seq<byte>, o: seq<byte>, h: seq<byte>)
    requires |l| == (if proto.isLong(c) then 2 else 1) && |a| == (if proto.isPlant(c) then 4 else 0) && |o| == 4
    requires h == [StartToken, c] + l + a + o
    ensures |h| == HeaderLength(proto, c) && h[1] == c
    ensures DataLength(proto, c, h) == BigEndian(l)
  {
    if proto.isLong(c) {
      assert h[2..4] == l;
    } else {
      assert h[2] == l[0];
      BigEndian1(l);
    }
  }

  lemma HeaderOid(proto: Rctclient, c: byte, l: seq<byte>, a: seq<byte>, o: seq<byte>, h: seq<byte>)
    requires |l| == (if proto.isLong(c) then 2 else 1) && |a| == (if proto.isPlant(c) then 4 else 0) && |o| == 4
    requires h == [StartToken, c] + l + a + o
    ensures |h| == HeaderLength(proto, c)
    ensures Oid(proto, c, h) == BigEndian(o)
  {
    var oi := OidIndex(proto, c);
    assert oi == |h| - 4;
    assert h[oi..oi + 4] == o;
  }

  lemma HeaderAddress(proto: Rctclient, c: byte, l: seq<byte>, a: seq<byte>, o: seq<byte>, h: seq<byte>)
    requires |l| == (if proto.isLong(c) then 2 else 1) && |a| == (if proto.isPlant(c) then 4 else 0) && |o| == 4
    requires h == [StartToken, c] + l + a + o
    ensures |h| == HeaderLength(proto, c)
    ensures Address(proto, c, h) == (if proto.isPlant(c) then BigEndian(a) else 0)
  {
    if proto.isPlant(c) {
      var ai := AddressIndex(proto, c);
      assert ai == |h| - 8;
      assert h[ai..ai + 4] == a;
    }
  }

  /** The header fields do not change when the payload and checksum follow the header. */
  lemma HeaderFieldsExtend(proto: Rctclient, c: byte, h: seq<byte>, f: seq<byte>)
    requires |h| == HeaderLength(proto, c) <= |f| && f[..|h|] == h
    ensures DataLength(proto, c, f) == DataLength(proto, c, h)
    ensures Oid(proto, c, f) == Oid(proto, c, h)
    ensures Address(proto, c, f) == Address(proto, c, h)
    ensures f[1] == h[1]
  {
    HeaderExtends(proto, c, h, f);
  }

  /** Header, payload and checksum laid out one after another, read back by index. */
  lemma FrameParts(h: seq<byte>, p: seq<byte>, cr: seq<byte>, f: seq<byte>)
    requires f == h + p + cr && |h| >= 1
    ensures |f| == |h| + |p| + |cr| && f[..|h|] == h
    ensures f[|h|..|h| + |p|] == p
    ensures f[|h| + |p|..|f|] == cr
    ensures f[1..|h| + |p|] == h[1..] + p
  {
  }

  /** `Decode` on a buffer that holds exactly one whole frame, given what its fields read as. */
  lemma DecodeByFields(proto: Rctclient, c: byte, u: seq<byte>, oid: nat, address: nat, payload: seq<byte>, crc: nat)
    requires proto.isCommand(c) && c != proto.extension
    requires |u| == HeaderLength(proto, c) + |payload| + FrameLengthCrc16 && u[1] == c
    requires DataLength(proto, c, u) == |payload| + IdLength(proto, c)
    requires Oid(proto, c, u) == oid && Address(proto, c, u) == address
    requires u[HeaderLength(proto, c)..HeaderLength(proto, c) + |payload|] == payload
    requires BigEndian(u[HeaderLength(proto, c) + |payload|..|u|]) == crc
    requires proto.crc16(u[1..HeaderLength(proto, c) + |payload|]) == crc
    ensures Decode(proto, u)
      == Complete(ResponseFrame(c, oid, crc, true, address, |u|, FrameTypeOf(proto, c), payload),
                  crc, |u| - FrameLengthCrc16)
  {
    assert OidIndex(proto, c) + 4 == HeaderLength(proto, c);
  }

  // ============================================================= one parse

  /** What one call of `parse` reports: a frame, nothing (`None`), or one of the two exceptions it raises. */
  datatype ParseResult =
    | Frame(frame: ResponseFrame)
    | NoFrame
    | CrcMismatch(received: nat, calculated: nat, at: nat)
    | InvalidCommand(command: byte, at: nat)

  /** The fields of a `FrameParser` that `parse` reads and writes. */
  datatype ParserState = ParserState(currentPos: nat, completeFrame: bool, escapeIndexes: seq<nat>)

  /**
   * The loop that ends `parse`: the cursor moves one further when some recorded
   * escape index is at or before it, and never more than once.
   */
  function CursorAfter(pos: nat, escapes: seq<nat>): (p: nat)
    ensures p == pos || p == pos + 1
    ensures p == pos + 1 <==> exists k :: 0 <= k < |escapes| && escapes[k] <= pos
  {
    if escapes == [] then pos
    else if pos >= escapes[0] then pos + 1
    else
      var p := CursorAfter(pos, escapes[1..]);
      assert forall k :: 0 < k < |escapes| ==> escapes[k] == escapes[1..][k - 1];
      p
  }

  /** The reset at the top of `parse`: a call past a complete frame starts afresh. */
  function Resumed(st: ParserState, length: nat): (st1: ParserState)
    ensures st1.currentPos == st.currentPos && st1.completeFrame == st.completeFrame
    ensures st1.escapeIndexes == (if st.completeFrame && st.currentPos < length then [] else st.escapeIndexes)
  {
    if st.completeFrame && st.currentPos < length then st.(escapeIndexes := []) else st
  }

  /**
   * One call of `parse`, as written, on `buf` from state `st`, with `ignoreCrc`
   * the parser's `ignore_crc_mismatch`: the new state and what the call reports.
   */
  function ParseStep(proto: Rctclient, ignoreCrc: bool, st: ParserState, buf: seq<byte>): (ParseResult, ParserState)
  {
    var st1 := Resumed(st, |buf|);
    var start := FindStart(buf, st.currentPos);
    if start < 0 then (NoFrame, st1.(currentPos := |buf|, completeFrame := false))
    else
      var s := buf[start..];
      var st2 := st1.(escapeIndexes := st1.escapeIndexes + AsWrittenPositions(s, st.currentPos));
      ReadFrame(proto, ignoreCrc, st2, start, UnescapeAsWritten(s))
  }

  /**
   * One call of `parse` as the code evidently intends: a start token counts
   * as escaped only after an odd run of escape tokens (`FindWireStart`),
   * unescaping runs from left to right, a dangling escape token is left for
   * the next call, and, after a frame, the cursor moves to the end of that
   * frame on the wire. The escape indexes are still recorded as the code
   * records them, but no longer take part in moving the cursor.
   */
  function IntendedParseStep(proto: Rctclient, ignoreCrc: bool, st: ParserState, buf: seq<byte>): (ParseResult, ParserState)
  {
    var st1 := Resumed(st, |buf|);
    var start := FindWireStart(buf, st.currentPos);
    if start < 0 then (NoFrame, st1.(currentPos := |buf|, completeFrame := false))
    else
      var s := Available(buf[start..]);
      var st2 := st1.(escapeIndexes := st1.escapeIndexes + EscapePositions(s, st.currentPos));
      var (r, st3) := ReadFrame(proto, ignoreCrc, st2, start, Unescape(s));
      if r.Frame? then (r, st3.(currentPos := start + WireLength(s, r.frame.frameLength))) else (r, st3)
  }

  /**
   * The part of `parse` after unescaping: decode the frame that starts at
   * `start` in the caller's buffer and is `u` once unescaped.
   */
  function ReadFrame(proto: Rctclient, ignoreCrc: bool, st: ParserState, start: nat, u: seq<byte>): (ParseResult, ParserState)
  {
    match Decode(proto, u)
    case Incomplete => (NoFrame, st.(completeFrame := false, escapeIndexes := []))
    case BadCommand(c) => (InvalidCommand(c, 1), st)
    case Complete(f, received, crcAt) =>
      if !f.crcOk && !ignoreCrc then (CrcMismatch(received, f.crc16, crcAt), st)
      else (Frame(f), st.(currentPos := CursorAfter(start + crcAt + FrameLengthCrc16, st.escapeIndexes), completeFrame := true))
  }

  /** A call whose search finds no start token reports nothing and moves the cursor to the end of the buffer. */
  lemma ParseStepNoStart(proto: Rctclient, ignoreCrc: bool, st: ParserState, buf: seq<byte>, want: ParserState)
    requires FindStart(buf, st.currentPos) == -1
    requires want.currentPos == |buf| && !want.completeFrame && want.escapeIndexes == Resumed(st, |buf|).escapeIndexes
    ensures ParseStep(proto, ignoreCrc, st, buf) == (NoFrame, want)
  {
  }

  /** A buffer without a start token past the cursor: nothing is reported, and the next call starts at its end. */
  lemma ParseWithoutStartToken(proto: Rctclient, ignoreCrc: bool, st: ParserState, buf: seq<byte>)
    requires forall k :: st.currentPos <= k < |buf| ==> buf[k] != StartToken
    ensures var (r, st') := ParseStep(proto, ignoreCrc, st, buf);
      && r == NoFrame && st'.currentPos == |buf| && !st'.completeFrame
      && st'.escapeIndexes == (if st.completeFrame && st.currentPos < |buf| then [] else st.escapeIndexes)
  {
    FindStartWithoutStartToken(buf, st.currentPos);
  }

  /**
   * A call that finds a start token but not the whole frame reports nothing,
   * forgets the escape indexes and leaves the cursor where it was, so that the
   * next call reads the same frame again.
   */
  lemma ParseIncomplete(proto: Rctclient, ignoreCrc: bool, st: ParserState, buf: seq<byte>)
    requires FindStart(buf, st.currentPos) >= 0
    requires Decode(proto, UnescapeAsWritten(buf[FindStart(buf, st.currentPos)..])).Incomplete?
    ensures ParseStep(proto, ignoreCrc, st, buf) == (NoFrame, ParserState(st.currentPos, false, []))
  {
  }

  /**
   * A reported frame is the one decoded from the first frame start past the
   * cursor, its checksum matches unless mismatches are ignored, and the cursor
   * moves past it: by its length, plus one when an escape index lies before.
   */
  lemma ParseFrameMovesPastIt(proto: Rctclient, ignoreCrc: bool, st: ParserState, buf: seq<byte>)
    requires ParseStep(proto, ignoreCrc, st, buf).0.Frame?
    ensures var (r, st') := ParseStep(proto, ignoreCrc, st, buf);
      var start := FindStart(buf, st.currentPos);
      && 0 <= start
      && Decode(proto, UnescapeAsWritten(buf[start..]))
         == Complete(r.frame, Decode(proto, UnescapeAsWritten(buf[start..])).received, r.frame.frameLength - FrameLengthCrc16)
      && (r.frame.crcOk || ignoreCrc)
      && st'.completeFrame
      && start + r.frame.frameLength <= st'.currentPos <= start + r.frame.frameLength + 1
  {
    var start := FindStart(buf, st.currentPos);
    DecodeLayout(proto, UnescapeAsWritten(buf[start..]));
  }

  /** The two exceptions leave the cursor unchanged; a checksum mismatch is raised only when not ignored. */
  lemma ParseErrorsKeepCursor(proto: Rctclient, ignoreCrc: bool, st: ParserState, buf: seq<byte>)
    requires ParseStep(proto, ignoreCrc, st, buf).0.CrcMismatch? || ParseStep(proto, ignoreCrc, st, buf).0.InvalidCommand?
    ensures ParseStep(proto, ignoreCrc, st, buf).1.currentPos == st.currentPos
    ensures ParseStep(proto, ignoreCrc, st, buf).0.CrcMismatch? ==> !ignoreCrc
  {
  }

  /**
   * Whether the start token found from `cursor` is followed, once unescaped as
   * the code does, by a byte that is no supported command or is the
   * extension command.
   */
  predicate BadCommandAt(proto: Rctclient, buf: seq<byte>, cursor: nat) {
    var start := FindStart(buf, cursor);
    && start >= 0
    && var u := UnescapeAsWritten(buf[start..]);
      |u| - 1 >= BufferLenCommand && (!proto.isCommand(u[1]) || u[1] == proto.extension)
  }

  /**
   * A call raises an invalid command exactly when the byte after the start
   * token it finds is not a command it reads; it then names that byte and
   * its index 1, and leaves the cursor where it was.
   */
  lemma ParseBadCommand(proto: Rctclient, ignoreCrc: bool, st: ParserState, buf: seq<byte>)
    ensures ParseStep(proto, ignoreCrc, st, buf).0.InvalidCommand? <==> BadCommandAt(proto, buf, st.currentPos)
    ensures BadCommandAt(proto, buf, st.currentPos) ==>
      var u := UnescapeAsWritten(buf[FindStart(buf, st.currentPos)..]);
      var (r, st') := ParseStep(proto, ignoreCrc, st, buf);
      r == InvalidCommand(u[1], 1) && st'.currentPos == st.currentPos && st'.completeFrame == st.completeFrame
  {
  }

  /**
   * A whole frame on the wire, after bytes the search passes over, whose
   * checksum was replaced in transit by a pair `p` that does not match: a
   * parser that does not ignore mismatches raises one with the received and
   * the computed checksum and the checksum's index, and keeps its cursor; one
   * that ignores them reports the frame, marked as not matching, and moves
   * the cursor past it.
   */
  lemma ParseWrongChecksum(proto: Rctclient, ignoreCrc: bool, st: ParserState, lead: seq<byte>,
                           f: seq<byte>, fr: ResponseFrame, p: seq<byte>, rest: seq<byte>)
    requires WholeFrame(proto, f, fr) && |p| == 2 && BigEndian(p) != fr.crc16
    requires HeaderLength(proto, f[1]) <= |f| - FrameLengthCrc16
    requires FindEscapedByte(f[..|f| - FrameLengthCrc16] + p + Unescape(rest)) == -1
    requires PassedOver(lead, st.currentPos)
    ensures var buf := lead + WireFrame(f[..|f| - FrameLengthCrc16] + p) + rest;
      var (r, st') := ParseStep(proto, ignoreCrc, st, buf);
      && (!ignoreCrc ==> r == CrcMismatch(BigEndian(p), fr.crc16, |f| - FrameLengthCrc16)
                         && st'.currentPos == st.currentPos && st'.completeFrame == st.completeFrame)
      && (ignoreCrc ==> r == Frame(fr.(crcOk := false)) && st'.completeFrame
                        && |lead| + |f| <= st'.currentPos <= |lead| + |f| + 1)
  {
    var g := f[..|f| - FrameLengthCrc16] + p;
    WrongChecksumPieces(proto, st, lead, f, fr, p, rest);
    ParseStepMismatch(proto, ignoreCrc, st, lead + WireFrame(g) + rest, |lead|, g + Unescape(rest), fr.(crcOk := false),
      BigEndian(p), |f| - FrameLengthCrc16, |lead| + |f|);
  }

  lemma WrongChecksumPieces(proto: Rctclient, st: ParserState, lead: seq<byte>,
                            f: seq<byte>, fr: ResponseFrame, p: seq<byte>, rest: seq<byte>)
    requires WholeFrame(proto, f, fr) && |p| == 2 && BigEndian(p) != fr.crc16
    requires HeaderLength(proto, f[1]) <= |f| - FrameLengthCrc16
    requires FindEscapedByte(f[..|f| - FrameLengthCrc16] + p + Unescape(rest)) == -1
    requires PassedOver(lead, st.currentPos)
    ensures var g := f[..|f| - FrameLengthCrc16] + p; var buf := lead + WireFrame(g) + rest;
      && FindStart(buf, st.currentPos) == |lead| && Unescape(buf[|lead|..]) == g + Unescape(rest)
      && FindEscapedByte(Unescape(buf[|lead|..])) == -1
      && Decode(proto, g + Unescape(rest)) == Complete(fr.(crcOk := false), BigEndian(p), |f| - FrameLengthCrc16)
  {
    var g := f[..|f| - FrameLengthCrc16] + p;
    assert g[0] == StartToken;
    FindStartOfWire(st.currentPos, lead, g, rest);
    SuffixAfterLead(lead, WireFrame(g), rest);
    UnescapeWire(g, rest);
    DecodeWrongChecksum(proto, f, fr, p, Unescape(rest));
  }

  /** A call that finds a frame whose checksum does not match: the premises of `ParseWrongChecksum`, in the caller's buffer. */
  lemma ParseStepMismatch(proto: Rctclient, ignoreCrc: bool, st: ParserState, buf: seq<byte>, start: nat, u: seq<byte>,
                          fr: ResponseFrame, received: nat, crcAt: nat, end: nat)
    requires FindStart(buf, st.currentPos) == start && FindEscapedByte(Unescape(buf[start..])) == -1
    requires Unescape(buf[start..]) == u && Decode(proto, u) == Complete(fr, received, crcAt) && !fr.crcOk
    requires end == start + crcAt + FrameLengthCrc16
    ensures var (r, st') := ParseStep(proto, ignoreCrc, st, buf);
      && (!ignoreCrc ==> r == CrcMismatch(received, fr.crc16, crcAt)
                         && st'.currentPos == st.currentPos && st'.completeFrame == st.completeFrame)
      && (ignoreCrc ==> r == Frame(fr) && st'.completeFrame && end <= st'.currentPos <= end + 1)
  {
    ParseStepReads(proto, ignoreCrc, st, buf, start);
    var st1 := Resumed(st, |buf|);
    ReadFrameMismatch(proto, ignoreCrc, st1.(escapeIndexes := st1.escapeIndexes + EscapePositions(buf[start..], st.currentPos)),
      start, u, fr, received, crcAt, end);
  }

  /** A frame whose checksum does not match raises, or, when ignored, is reported with the cursor at or one past `end`. */
  lemma ReadFrameMismatch(proto: Rctclient, ignoreCrc: bool, st: ParserState, start: nat, u: seq<byte>,
                          fr: ResponseFrame, received: nat, crcAt: nat, end: nat)
    requires Decode(proto, u) == Complete(fr, received, crcAt) && !fr.crcOk && end == start + crcAt + FrameLengthCrc16
    ensures var (r, st') := ReadFrame(proto, ignoreCrc, st, start, u);
      && (!ignoreCrc ==> r == CrcMismatch(received, fr.crc16, crcAt) && st' == st)
      && (ignoreCrc ==> r == Frame(fr) && st'.completeFrame && end <= st'.currentPos <= end + 1)
  {
  }

  /** A call that finds a start token, where unescaping as written agrees with unescaping from left to right, decodes what follows it. */
  lemma ParseStepReads(proto: Rctclient, ignoreCrc: bool, st: ParserState, buf: seq<byte>, start: nat)
    requires FindStart(buf, st.currentPos) == start && FindEscapedByte(Unescape(buf[start..])) == -1
    ensures var st1 := Resumed(st, |buf|);
      ParseStep(proto, ignoreCrc, st, buf) == ReadFrame(proto, ignoreCrc,
        st1.(escapeIndexes := st1.escapeIndexes + EscapePositions(buf[start..], st.currentPos)), start, Unescape(buf[start..]))
  {
    UnescapeAsWrittenAgrees(buf[start..], st.currentPos);
  }

  /**
   * After a call that found only part of a frame, the next call, on any
   * buffer, reports what a fresh parser at the same cursor would; the states
   * agree too unless that call raises.
   */
  lemma ResumeIsFresh(proto: Rctclient, ignoreCrc: bool, st: ParserState, buf: seq<byte>, next: seq<byte>)
    requires FindStart(buf, st.currentPos) >= 0
    requires Decode(proto, UnescapeAsWritten(buf[FindStart(buf, st.currentPos)..])).Incomplete?
    ensures var resumed := ParseStep(proto, ignoreCrc, ParseStep(proto, ignoreCrc, st, buf).1, next);
      var restarted := ParseStep(proto, ignoreCrc, ParserState(st.currentPos, true, []), next);
      && resumed.0 == restarted.0
      && (resumed.0.Frame? || resumed.0.NoFrame? ==> resumed.1 == restarted.1)
  {
    ParseIncomplete(proto, ignoreCrc, st, buf);
  }

  /**
   * Bytes ahead of a frame that the search passes over from `cursor`: every
   * start token among them is escaped, and the last of them is not an escape
   * token, which would hide the frame's own start token.
   */
  predicate PassedOver(lead: seq<byte>, cursor: nat) {
    && cursor <= |lead|
    && (forall k :: cursor <= k < |lead| && lead[k] == StartToken ==> k > 0 && lead[k - 1] == EscapeToken)
    && (lead == [] || lead[|lead| - 1] != EscapeToken)
  }

  /**
   * Bytes ahead of a frame that the corrected search passes over from
   * `cursor`: every start token among them is protected, and they end in an
   * even run of escape tokens, which leaves the frame's own start token free.
   */
  predicate PassedOverOnWire(lead: seq<byte>, cursor: nat) {
    && cursor <= |lead|
    && (forall k :: cursor <= k < |lead| && lead[k] == StartToken ==> EscapedOnWire(lead, k))
    && EscapeRun(lead, |lead|) % 2 == 0
  }

  /** A frame whose bytes after the start token hold no reserved byte, so that it goes on the wire as it is. */
  predicate NeedsNoEscaping(f: seq<byte>) {
    forall k :: 1 <= k < |f| ==> !IsReserved(f[k])
  }

  /** The wire form of an unescaped frame: its start token as is, everything after it escaped. */
  function WireFrame(f: seq<byte>): seq<byte>
    requires f != []
  {
    [f[0]] + Escape(f[1..])
  }

  /** A byte other than the escape token starts a one-byte step of unescaping. */
  lemma UnescapePlainFirst(b: byte, x: seq<byte>)
    requires b != EscapeToken
    ensures Unescape([b] + x) == [b] + Unescape(x)
  {
    assert ([b] + x)[1..] == x;
  }

  /**
   * A whole frame on the wire, after bytes the search passes over, is found
   * and reported in full from any state, and the cursor moves past it,
   * whatever bytes follow, provided unescaping from left to right leaves no
   * escape pair behind for the loop as written.
   */
  lemma ParseWholeFrame(proto: Rctclient, ignoreCrc: bool, st: ParserState, lead: seq<byte>,
                        f: seq<byte>, fr: ResponseFrame, rest: seq<byte>)
    requires WholeFrame(proto, f, fr) && FindEscapedByte(f + Unescape(rest)) == -1
    requires PassedOver(lead, st.currentPos)
    ensures var (r, st') := ParseStep(proto, ignoreCrc, st, lead + WireFrame(f) + rest);
      && r == Frame(fr) && st'.completeFrame
      && |lead| + |f| <= st'.currentPos <= |lead| + |f| + 1
  {
    var buf := lead + WireFrame(f) + rest;
    FindStartOfWire(st.currentPos, lead, f, rest);
    SuffixAfterLead(lead, WireFrame(f), rest);
    UnescapeWire(f, rest);
    WholeFrameExtends(proto, f, fr, Unescape(rest));
    ParseStepFoundFrom(proto, ignoreCrc, st, buf, |lead|, fr, fr.crc16, |f| - FrameLengthCrc16);
  }

  /**
   * What the sender puts on the wire, after bytes the search passes over, is
   * read back as it was sent, and the cursor stops at the end of it on the wire.
   */
  lemma ParseEncodedFrame(proto: Rctclient, ignoreCrc: bool, st: ParserState, lead: seq<byte>,
                          c: byte, address: nat, oid: nat, payload: seq<byte>, rest: seq<byte>)
    requires Encodable(proto, c, address, oid, payload) && PassedOverOnWire(lead, st.currentPos)
    ensures var w := WireFrame(EncodeFrame(proto, c, address, oid, payload));
      var (r, st') := IntendedParseStep(proto, ignoreCrc, st, lead + w + rest);
      && r == Frame(SentFrame(proto, c, address, oid, payload)) && st'.completeFrame
      && st'.currentPos == |lead| + |w|
  {
    EncodedWholeFrame(proto, c, address, oid, payload);
    IntendedWholeFrame(proto, ignoreCrc, st, lead, EncodeFrame(proto, c, address, oid, payload),
      SentFrame(proto, c, address, oid, payload), rest);
  }

  lemma FindStartOfWire(cursor: nat, lead: seq<byte>, f: seq<byte>, rest: seq<byte>)
    requires f != [] && f[0] == StartToken && PassedOver(lead, cursor)
    requires |f| >= 2 || rest == [] || rest[0] != StartToken
    ensures FindStart(lead + WireFrame(f) + rest, cursor) == |lead|
  {
    var buf := lead + WireFrame(f) + rest;
    var g := |lead|;
    assert buf[g] == StartToken;
    if |f| >= 2 {
      assert Escape(f[1..])[0] != StartToken;
      assert buf[g + 1] == Escape(f[1..])[0];
    } else if rest != [] {
      assert WireFrame(f) == [StartToken];
      assert buf[g + 1] == rest[0];
    }
    forall k | cursor <= k < g && buf[k] == StartToken ensures k > 0 && buf[k - 1] == EscapeToken {
      assert buf[k] == lead[k];
      assert buf[k - 1] == lead[k - 1];
    }
    if g > 0 {
      assert buf[g - 1] == lead[g - 1];
    }
    FindStartAfterGarbage(buf, cursor, g);
  }

  /** The corrected search, from `cursor`, finds the frame on the wire after bytes it passes over. */
  lemma FindWireStartOfWire(cursor: nat, lead: seq<byte>, f: seq<byte>, rest: seq<byte>)
    requires f != [] && f[0] == StartToken && PassedOverOnWire(lead, cursor)
    requires |f| >= 2 || rest == [] || rest[0] != StartToken
    ensures FindWireStart(lead + WireFrame(f) + rest, cursor) == |lead|
  {
    var buf := lead + WireFrame(f) + rest;
    var g := |lead|;
    assert buf == lead + (WireFrame(f) + rest);
    assert buf[g] == StartToken;
    if |f| >= 2 {
      assert Escape(f[1..])[0] != StartToken;
      assert buf[g + 1] == Escape(f[1..])[0];
    } else if rest != [] {
      assert WireFrame(f) == [StartToken];
      assert buf[g + 1] == rest[0];
    }
    forall k | cursor <= k < g && buf[k] == StartToken ensures EscapedOnWire(buf, k) {
      assert buf[k] == lead[k];
      EscapeRunPrefix(lead, WireFrame(f) + rest, k);
    }
    EscapeRunPrefix(lead, WireFrame(f) + rest, g);
    FindWireStartAfterGarbage(buf, cursor, g);
  }

  /** Escaped data ends in an even run of escape tokens: each of them is an escaped dash. */
  lemma {:induction false} EscapeEndsEven(t: seq<byte>)
    ensures EscapeRun(Escape(t), |Escape(t)|) % 2 == 0
    decreases |t|
  {
    if t != [] {
      var h: seq<byte> := if IsReserved(t[0]) then [EscapeToken, t[0]] else [t[0]];
      EscapeHead(t, h);
      EscapeEndsEven(t[1..]);
      EscapeRunConcat(h, Escape(t[1..]));
      if t[0] == EscapeToken {
        assert EscapeRun(h, 1) == 1;
      }
    }
  }

  /** A frame on the wire leaves the start token right after it free for the corrected search. */
  lemma WireFrameEndsEven(f: seq<byte>)
    requires f != [] && f[0] == StartToken
    ensures PassedOverOnWire(WireFrame(f), |WireFrame(f)|)
  {
    EscapeEndsEven(f[1..]);
    EscapeRunConcat([f[0]], Escape(f[1..]));
  }

  /** Data without start and escape tokens is sent as it is. */
  lemma {:induction false} EscapeWithoutReserved(t: seq<byte>)
    requires forall k :: 0 <= k < |t| ==> !IsReserved(t[k])
    ensures Escape(t) == t
    decreases |t|
  {
    if t != [] {
      EscapeWithoutReserved(t[1..]);
      assert t == [t[0]] + t[1..];
    }
  }

  /** A call that finds a whole frame with a good checksum, in terms of where it starts and what it unescapes to. */
  lemma ParseStepFound(proto: Rctclient, ignoreCrc: bool, st: ParserState, buf: seq<byte>,
                       start: nat, fr: ResponseFrame, received: nat, crcAt: nat)
    requires st.completeFrame && st.currentPos < |buf|
    requires FindStart(buf, st.currentPos) == start
    requires Decode(proto, Unescape(buf[start..])) == Complete(fr, received, crcAt) && fr.crcOk
    requires FindEscapedByte(Unescape(buf[start..])) == -1
    ensures var log := EscapePositions(buf[start..], st.currentPos);
      ParseStep(proto, ignoreCrc, st, buf)
      == (Frame(fr), ParserState(CursorAfter(start + crcAt + FrameLengthCrc16, log), true, log))
  {
    UnescapeAsWrittenAgrees(buf[start..], st.currentPos);
    var log := EscapePositions(buf[start..], st.currentPos);
    var st2 := ParserState(st.currentPos, true, [] + log);
    assert [] + log == log;
    assert ParseStep(proto, ignoreCrc, st, buf) == ReadFrame(proto, ignoreCrc, st2, start, Unescape(buf[start..]));
    ReadFrameComplete(proto, ignoreCrc, st2, start, Unescape(buf[start..]), fr, received, crcAt);
  }

  /**
   * A call from any state that finds a whole frame with a good checksum: the
   * indexes the reset at the top of `parse` leaves are kept, the ones of this
   * frame are added, and all of them take part in moving the cursor.
   */
  lemma ParseStepFoundFrom(proto: Rctclient, ignoreCrc: bool, st: ParserState, buf: seq<byte>,
                           start: nat, fr: ResponseFrame, received: nat, crcAt: nat)
    requires FindStart(buf, st.currentPos) == start
    requires Decode(proto, Unescape(buf[start..])) == Complete(fr, received, crcAt) && fr.crcOk
    requires FindEscapedByte(Unescape(buf[start..])) == -1
    ensures var log := Resumed(st, |buf|).escapeIndexes + EscapePositions(buf[start..], st.currentPos);
      ParseStep(proto, ignoreCrc, st, buf)
      == (Frame(fr), ParserState(CursorAfter(start + crcAt + FrameLengthCrc16, log), true, log))
  {
    UnescapeAsWrittenAgrees(buf[start..], st.currentPos);
    var log := Resumed(st, |buf|).escapeIndexes + EscapePositions(buf[start..], st.currentPos);
    var st2 := Resumed(st, |buf|).(escapeIndexes := log);
    assert ParseStep(proto, ignoreCrc, st, buf) == ReadFrame(proto, ignoreCrc, st2, start, Unescape(buf[start..]));
    ReadFrameComplete(proto, ignoreCrc, st2, start, Unescape(buf[start..]), fr, received, crcAt);
  }

  /** Where a call stands that finds a whole frame and no escape pair: the premises of `ParseStepFoundPlain`. */
  ghost predicate FoundPlain(proto: Rctclient, st: ParserState, buf: seq<byte>, start: nat, fr: ResponseFrame, crcAt: nat) {
    st.completeFrame && st.currentPos < |buf| && FindStart(buf, st.currentPos) == start
    && start <= |buf| && Decode(proto, Unescape(buf[start..])) == Complete(fr, fr.crc16, crcAt) && fr.crcOk
    && EscapePositions(buf[start..], st.currentPos) == [] && FindEscapedByte(Unescape(buf[start..])) == -1
  }

  lemma ParseStepFoundPlain(proto: Rctclient, ignoreCrc: bool, st: ParserState, buf: seq<byte>,
                            start: nat, fr: ResponseFrame, crcAt: nat, want: ParserState)
    requires FoundPlain(proto, st, buf, start, fr, crcAt)
    requires want.currentPos == start + crcAt + FrameLengthCrc16 && want.completeFrame && want.escapeIndexes == []
    ensures ParseStep(proto, ignoreCrc, st, buf) == (Frame(fr), want)
  {
    ParseStepFound(proto, ignoreCrc, st, buf, start, fr, fr.crc16, crcAt);
    var log := EscapePositions(buf[start..], st.currentPos);
    assert CursorAfter(start + crcAt + FrameLengthCrc16, log) == want.currentPos;
  }

  lemma ReadFrameComplete(proto: Rctclient, ignoreCrc: bool, st: ParserState, start: nat, u: seq<byte>,
                          fr: ResponseFrame, received: nat, crcAt: nat)
    requires Decode(proto, u) == Complete(fr, received, crcAt) && fr.crcOk
    ensures ReadFrame(proto, ignoreCrc, st, start, u)
      == (Frame(fr), ParserState(CursorAfter(start + crcAt + FrameLengthCrc16, st.escapeIndexes), true, st.escapeIndexes))
  {
  }

  /**
   * A frame whose bytes after the start token need no escaping, followed by
   * bytes without escape tokens, goes on the wire as it is; the parser
   * reports it from any state and records no escape index of its own. The
   * cursor stops at the end of the frame, or one past it when an index left
   * by an earlier frame survives: the reset at the top of `parse` clears the
   * indexes only after a complete frame, and a call that finds no start token
   * leaves them as they are.
   */
  lemma ParsePlainFrame(proto: Rctclient, ignoreCrc: bool, st: ParserState, lead: seq<byte>,
                        f: seq<byte>, fr: ResponseFrame, rest: seq<byte>)
    requires WholeFrame(proto, f, fr) && NeedsNoEscaping(f)
    requires forall k :: 0 <= k < |rest| ==> rest[k] != EscapeToken
    requires PassedOver(lead, st.currentPos)
    ensures var kept := if st.completeFrame then [] else st.escapeIndexes;
      ParseStep(proto, ignoreCrc, st, lead + f + rest) == (Frame(fr), ParserState(CursorAfter(|lead| + |f|, kept), true, kept))
    ensures st.completeFrame ==> ParseStep(proto, ignoreCrc, st, lead + f + rest) == (Frame(fr), ParserState(|lead| + |f|, true, []))
  {
    var kept := if st.completeFrame then [] else st.escapeIndexes;
    PlainFrameFrom(proto, ignoreCrc, st, lead, f, fr, rest, lead + f + rest, |lead|, |f| - FrameLengthCrc16,
                   ParserState(CursorAfter(|lead| + |f|, kept), true, kept));
  }

  lemma PlainFrameFrom(proto: Rctclient, ignoreCrc: bool, st: ParserState, lead: seq<byte>, f: seq<byte>, fr: ResponseFrame,
                       rest: seq<byte>, buf: seq<byte>, start: nat, crcAt: nat, want: ParserState)
    requires WholeFrame(proto, f, fr) && NeedsNoEscaping(f)
    requires forall k :: 0 <= k < |rest| ==> rest[k] != EscapeToken
    requires PassedOver(lead, st.currentPos)
    requires buf == lead + f + rest && start == |lead| && crcAt + FrameLengthCrc16 == |f|
    requires want.escapeIndexes == (if st.completeFrame then [] else st.escapeIndexes)
    requires want.currentPos == CursorAfter(|lead| + |f|, want.escapeIndexes) && want.completeFrame
    ensures ParseStep(proto, ignoreCrc, st, buf) == (Frame(fr), want)
  {
    PlainFramePieces(proto, st.(completeFrame := true), lead, f, fr, rest);
    ParseStepFoundPlainFrom(proto, ignoreCrc, st, buf, start, fr, crcAt, want);
  }

  lemma ParseStepFoundPlainFrom(proto: Rctclient, ignoreCrc: bool, st: ParserState, buf: seq<byte>,
                                start: nat, fr: ResponseFrame, crcAt: nat, want: ParserState)
    requires FoundPlain(proto, st.(completeFrame := true), buf, start, fr, crcAt)
    requires want.escapeIndexes == (if st.completeFrame then [] else st.escapeIndexes)
    requires want.currentPos == CursorAfter(start + crcAt + FrameLengthCrc16, want.escapeIndexes) && want.completeFrame
    ensures ParseStep(proto, ignoreCrc, st, buf) == (Frame(fr), want)
  {
    ParseStepFoundFrom(proto, ignoreCrc, st, buf, start, fr, fr.crc16, crcAt);
    assert Resumed(st, |buf|).escapeIndexes + [] == want.escapeIndexes;
  }

  lemma PlainFrameAt(proto: Rctclient, ignoreCrc: bool, st: ParserState, lead: seq<byte>, f: seq<byte>, fr: ResponseFrame,
                     rest: seq<byte>, buf: seq<byte>, start: nat, crcAt: nat, want: ParserState)
    requires WholeFrame(proto, f, fr) && NeedsNoEscaping(f)
    requires forall k :: 0 <= k < |rest| ==> rest[k] != EscapeToken
    requires st.completeFrame && PassedOver(lead, st.currentPos)
    requires buf == lead + f + rest && start == |lead| && crcAt + FrameLengthCrc16 == |f|
    requires want.currentPos == |lead| + |f| && want.completeFrame && want.escapeIndexes == []
    ensures ParseStep(proto, ignoreCrc, st, buf) == (Frame(fr), want)
  {
    PlainFramePieces(proto, st, lead, f, fr, rest);
    ParseStepFoundPlain(proto, ignoreCrc, st, buf, start, fr, crcAt, want);
  }

  lemma PlainFramePieces(proto: Rctclient, st: ParserState, lead: seq<byte>, f: seq<byte>, fr: ResponseFrame, rest: seq<byte>)
    requires WholeFrame(proto, f, fr) && NeedsNoEscaping(f)
    requires forall k :: 0 <= k < |rest| ==> rest[k] != EscapeToken
    requires st.completeFrame && PassedOver(lead, st.currentPos)
    ensures FoundPlain(proto, st, lead + f + rest, |lead|, fr, |f| - FrameLengthCrc16)
  {
    PlainWire(f);
    FindStartOfWire(st.currentPos, lead, f, rest);
    SuffixAfterLead(lead, f, rest);
    PlainWireHasNoEscapes(f, rest);
    UnescapeWithoutEscapeTokens(f + rest, st.currentPos);
    NoEscapeTokenNoPair(f + rest);
    WholeFrameExtends(proto, f, fr, rest);
  }

  /** A frame that needs no escaping goes on the wire as it is. */
  lemma PlainWire(f: seq<byte>)
    requires f != [] && NeedsNoEscaping(f)
    ensures WireFrame(f) == f
  {
    EscapeWithoutReserved(f[1..]);
  }

  lemma SuffixAfterLead(lead: seq<byte>, f: seq<byte>, rest: seq<byte>)
    ensures (lead + f + rest)[|lead|..] == f + rest
  {
    assert lead + f + rest == lead + (f + rest);
  }

  lemma NoEscapeTokenNoPair(s: seq<byte>)
    requires forall k :: 0 <= k < |s| ==> s[k] != EscapeToken
    ensures FindEscapedByte(s) == -1
  {
  }

  lemma PlainWireHasNoEscapes(f: seq<byte>, rest: seq<byte>)
    requires |f| >= 1 && f[0] == StartToken && NeedsNoEscaping(f)
    requires forall k :: 0 <= k < |rest| ==> rest[k] != EscapeToken
    ensures forall k :: 0 <= k < |f + rest| ==> (f + rest)[k] != EscapeToken
  {
  }

  /** A reserved byte of the data leaves an escape index behind where it stands. */
  lemma {:induction false} EscapeMarksReserved(t: seq<byte>, q: seq<byte>, at: nat, j: nat)
    requires j < |t| && IsReserved(t[j])
    ensures at + j in EscapePositions(Escape(t) + q, at)
    decreases |t|
  {
    var w := Escape(t) + q;
    if IsReserved(t[0]) {
      assert w == [EscapeToken, t[0]] + (Escape(t[1..]) + q);
      assert w[2..] == Escape(t[1..]) + q;
      if j > 0 {
        EscapeMarksReserved(t[1..], q, at + 1, j - 1);
      }
    } else {
      assert w == [t[0]] + (Escape(t[1..]) + q);
      assert w[1..] == Escape(t[1..]) + q;
      EscapeMarksReserved(t[1..], q, at + 1, j - 1);
    }
  }

  /**
   * A frame that needed escaping, read by a parser at cursor 0 from a buffer
   * that starts with it: the cursor moves one past the unescaped length, which
   * for a frame with a single escaped byte is the end of the frame on the wire.
   */
  lemma ParseEscapedFrame(proto: Rctclient, ignoreCrc: bool, escapes: seq<nat>,
                          f: seq<byte>, fr: ResponseFrame, rest: seq<byte>, j: nat)
    requires WholeFrame(proto, f, fr) && 1 <= j < |f| && IsReserved(f[j])
    requires FindEscapedByte(f + Unescape(rest)) == -1
    ensures var (r, st') := ParseStep(proto, ignoreCrc, ParserState(0, true, escapes), WireFrame(f) + rest);
      r == Frame(fr) && st'.completeFrame && st'.currentPos == |f| + 1
  {
    EscapedFrameFacts(proto, f, fr, rest, j);
    EscapedFrameAt(proto, ignoreCrc, escapes, WireFrame(f) + rest, fr, |f| - FrameLengthCrc16, |f|, j);
  }

  /** The premises of `ParseStepFound` for the buffer of `ParseEscapedFrame`. */
  lemma EscapedFrameFacts(proto: Rctclient, f: seq<byte>, fr: ResponseFrame, rest: seq<byte>, j: nat)
    requires WholeFrame(proto, f, fr) && 1 <= j < |f| && IsReserved(f[j])
    ensures var buf := WireFrame(f) + rest;
      && FindStart(buf, 0) == 0 && Decode(proto, Unescape(buf[0..])) == Complete(fr, fr.crc16, |f| - FrameLengthCrc16)
      && Unescape(buf[0..]) == f + Unescape(rest) && j in EscapePositions(buf[0..], 0)
  {
    var buf := WireFrame(f) + rest;
    FindStartOfWire(0, [], f, rest);
    assert [] + WireFrame(f) + rest == buf;
    assert buf[0..] == buf;
    UnescapeWire(f, rest);
    WholeFrameExtends(proto, f, fr, Unescape(rest));
    WireMarksReserved(f, rest, j);
  }

  lemma EscapedFrameAt(proto: Rctclient, ignoreCrc: bool, escapes: seq<nat>, buf: seq<byte>, fr: ResponseFrame,
                       crcAt: nat, n: nat, j: nat)
    requires |buf| > 0 && FindStart(buf, 0) == 0 && crcAt + FrameLengthCrc16 == n && j < n
    requires Decode(proto, Unescape(buf[0..])) == Complete(fr, fr.crc16, crcAt) && fr.crcOk
    requires FindEscapedByte(Unescape(buf[0..])) == -1 && j in EscapePositions(buf[0..], 0)
    ensures var (r, st') := ParseStep(proto, ignoreCrc, ParserState(0, true, escapes), buf);
      r == Frame(fr) && st'.completeFrame && st'.currentPos == n + 1
  {
    ParseStepFound(proto, ignoreCrc, ParserState(0, true, escapes), buf, 0, fr, fr.crc16, crcAt);
    CursorAfterIn(n, EscapePositions(buf[0..], 0), j);
  }

  lemma CursorAfterIn(pos: nat, log: seq<nat>, e: nat)
    requires e in log && e <= pos
    ensures CursorAfter(pos, log) == pos + 1
  {
    var k :| 0 <= k < |log| && log[k] == e;
  }

  /** The escape indexes of a frame on the wire include every reserved byte of the frame. */
  lemma WireMarksReserved(f: seq<byte>, rest: seq<byte>, j: nat)
    requires 1 <= j < |f| && f[0] == StartToken && IsReserved(f[j])
    ensures j in EscapePositions(WireFrame(f) + rest, 0)
  {
    var w := Escape(f[1..]) + rest;
    var buf := WireFrame(f) + rest;
    assert buf == [StartToken] + w && |w| >= 1;
    assert buf[1..] == w;
    EscapeMarksReserved(f[1..], rest, 1, j - 1);
    assert EscapePositions(buf, 0) == EscapePositions(w, 1);
  }

  /** Bytes without escape tokens record no escape index; the count continues after them. */
  lemma {:induction false} EscapePositionsAfterPlain(p: seq<byte>, q: seq<byte>, at: nat)
    requires forall k :: 0 <= k < |p| ==> p[k] != EscapeToken
    requires |q| >= 2
    ensures EscapePositions(p + q, at) == EscapePositions(q, at + |p|)
    decreases |p|
  {
    if p != [] {
      assert (p + q)[1..] == p[1..] + q;
      EscapePositionsAfterPlain(p[1..], q, at + 1);
    } else {
      assert p + q == q;
    }
  }

  /**
   * The escape indexes are offset by the cursor the call started from, not by
   * the start token it found. After two leading bytes, a frame that needs no
   * escaping and the start of a second frame whose first escape pair lies two
   * bytes after its start token, the cursor ends one past that start token,
   * and the next call no longer sees it.
   */
  lemma CursorPassesNextStart(proto: Rctclient, ignoreCrc: bool, f: seq<byte>, fr: ResponseFrame)
    requires WholeFrame(proto, f, fr) && NeedsNoEscaping(f)
    ensures var buf := [0x00, 0x00] + f + [0x2B, 0x05, 0x2D, 0x2D];
      && ParseStep(proto, ignoreCrc, ParserState(0, true, []), buf)
         == (Frame(fr), ParserState(|f| + 3, true, [|f| + 2]))
      && LoneStart(buf, |f| + 2) && FindStart(buf, |f| + 3) == -1
  {
    PassingParse(proto, ignoreCrc, f, fr);
    SecondStart(f);
  }

  lemma PassingParse(proto: Rctclient, ignoreCrc: bool, f: seq<byte>, fr: ResponseFrame)
    requires WholeFrame(proto, f, fr) && NeedsNoEscaping(f)
    ensures ParseStep(proto, ignoreCrc, ParserState(0, true, []), [0x00, 0x00] + f + [0x2B, 0x05, 0x2D, 0x2D])
         == (Frame(fr), ParserState(|f| + 3, true, [|f| + 2]))
  {
    PassingFacts(proto, f, fr);
    PassingAt(proto, ignoreCrc, [0x00, 0x00] + f + [0x2B, 0x05, 0x2D, 0x2D], fr, |f| - FrameLengthCrc16, |f|);
  }

  /** The premises of `ParseStepFound` for the buffer of `CursorPassesNextStart`. */
  lemma PassingFacts(proto: Rctclient, f: seq<byte>, fr: ResponseFrame)
    requires WholeFrame(proto, f, fr) && NeedsNoEscaping(f)
    ensures var buf := [0x00, 0x00] + f + [0x2B, 0x05, 0x2D, 0x2D];
      && FindStart(buf, 0) == 2 && Decode(proto, Unescape(buf[2..])) == Complete(fr, fr.crc16, |f| - FrameLengthCrc16)
      && FindEscapedByte(Unescape(buf[2..])) == -1 && EscapePositions(buf[2..], 0) == [|f| + 2]
  {
    var lead, tail, u: seq<byte> := [0x00, 0x00], [0x2B, 0x05, 0x2D, 0x2D], [0x2B, 0x05, 0x2D];
    PlainWire(f);
    FindStartOfWire(0, lead, f, tail);
    SuffixAfterLead(lead, f, tail);
    PassingUnescapes(f, tail);
    WholeFrameExtends(proto, f, fr, u);
  }

  lemma PassingAt(proto: Rctclient, ignoreCrc: bool, buf: seq<byte>, fr: ResponseFrame, crcAt: nat, n: nat)
    requires |buf| > 2 && FindStart(buf, 0) == 2 && crcAt + FrameLengthCrc16 == n
    requires Decode(proto, Unescape(buf[2..])) == Complete(fr, fr.crc16, crcAt) && fr.crcOk
    requires FindEscapedByte(Unescape(buf[2..])) == -1 && EscapePositions(buf[2..], 0) == [n + 2]
    ensures ParseStep(proto, ignoreCrc, ParserState(0, true, []), buf) == (Frame(fr), ParserState(n + 3, true, [n + 2]))
  {
    ParseStepFound(proto, ignoreCrc, ParserState(0, true, []), buf, 2, fr, fr.crc16, crcAt);
    CursorAfterOne(2 + crcAt + FrameLengthCrc16, n + 2);
  }

  lemma CursorAfterOne(pos: nat, e: nat)
    requires e <= pos
    ensures CursorAfter(pos, [e]) == pos + 1
  {
  }

  /** The second start token of that buffer is a lone one, and nothing after it is. */
  lemma SecondStart(f: seq<byte>)
    requires |f| >= 2 && NeedsNoEscaping(f)
    ensures var buf := [0x00, 0x00] + f + [0x2B, 0x05, 0x2D, 0x2D];
      && LoneStart(buf, |f| + 2) && FindStart(buf, |f| + 2) == |f| + 2 && FindStart(buf, |f| + 3) == -1
  {
    var head: seq<byte> := [0x00, 0x00] + f;
    assert head[|head| - 1] == f[|f| - 1] && !IsReserved(f[|f| - 1]);
    StartAfterHead(head, [0x2B, 0x05, 0x2D, 0x2D]);
    assert |head| == |f| + 2;
  }

  /** `tail`, after bytes whose last is not an escape token: its start token is the next one found. */
  lemma StartAfterHead(head: seq<byte>, tail: seq<byte>)
    requires head != [] && head[|head| - 1] != EscapeToken && head[|head| - 1] != StartToken
    requires tail == [0x2B, 0x05, 0x2D, 0x2D]
    ensures var buf := head + tail;
      && LoneStart(buf, |head|) && FindStart(buf, |head|) == |head| && FindStart(buf, |head| + 1) == -1
  {
    var buf := head + tail;
    var n := |head|;
    assert buf[n - 1] == head[n - 1];
    assert buf[n] == 0x2B && buf[n + 1] == 0x05;
    forall k | n + 1 <= k < |buf| ensures buf[k] != StartToken {
      assert buf[k] == tail[k - n];
    }
    FindStartWithoutStartToken(buf, n + 1);
    assert RunEnd(buf, n + 1) == n + 1;
  }

  lemma PassingUnescapes(f: seq<byte>, tail: seq<byte>)
    requires |f| >= 2 && f[0] == StartToken && NeedsNoEscaping(f) && tail == [0x2B, 0x05, 0x2D, 0x2D]
    ensures Unescape(f + tail) == f + [0x2B, 0x05, 0x2D]
    ensures EscapePositions(f + tail, 0) == [|f| + 2]
    ensures FindEscapedByte(f + [0x2B, 0x05, 0x2D]) == -1
  {
    var p, q: seq<byte> := f + [0x2B, 0x05], [0x2D, 0x2D];
    assert f + tail == p + q;
    assert forall k :: 0 <= k < |p| ==> p[k] != EscapeToken;
    UnescapePlainPrefix(p, q, 0);
    assert Unescape(q) == [0x2D];
    assert p + [0x2D] == f + [0x2B, 0x05, 0x2D];
    EscapePositionsAfterPlain(p, q, 0);
    assert EscapePositions(q, |p|) == [|p|];
  }

  // ================================================== the intended parse

  /** Unescaping a frame on the wire gives the frame back, whatever follows. */
  lemma UnescapeWire(f: seq<byte>, r: seq<byte>)
    requires f != [] && f[0] == StartToken
    ensures Unescape(WireFrame(f) + r) == f + Unescape(r)
  {
    WireThen(f, r);
    UnescapePlainFirst(StartToken, Escape(f[1..]) + r);
    UnescapeOfEscape(f[1..], r);
    ConsSplit(f, Unescape(r));
  }

  lemma WireThen(f: seq<byte>, r: seq<byte>)
    requires f != []
    ensures WireFrame(f) + r == [f[0]] + (Escape(f[1..]) + r)
  {
  }

  /** A frame on the wire is as long there as `WireLength` says, whatever follows. */
  lemma WireLengthOfWire(f: seq<byte>, r: seq<byte>)
    requires f != [] && f[0] == StartToken
    ensures WireLength(WireFrame(f) + r, |f|) == |WireFrame(f)|
  {
    var w := WireFrame(f) + r;
    assert w == [StartToken] + (Escape(f[1..]) + r);
    assert w[1..] == Escape(f[1..]) + r;
    WireLengthOfEscape(f[1..], r);
  }

  /**
   * The intended parse reports every whole frame on the wire, after bytes the
   * search passes over and whatever follows it, from any state, and stops the
   * cursor exactly at the end of the frame on the wire.
   */
  lemma IntendedWholeFrame(proto: Rctclient, ignoreCrc: bool, st: ParserState, lead: seq<byte>,
                           f: seq<byte>, fr: ResponseFrame, rest: seq<byte>)
    requires WholeFrame(proto, f, fr) && PassedOverOnWire(lead, st.currentPos)
    ensures var (r, st') := IntendedParseStep(proto, ignoreCrc, st, lead + WireFrame(f) + rest);
      && r == Frame(fr) && st'.completeFrame && st'.currentPos == |lead| + |WireFrame(f)|
  {
    var buf := lead + WireFrame(f) + rest;
    FindWireStartOfWire(st.currentPos, lead, f, rest);
    SuffixAfterLead(lead, WireFrame(f), rest);
    AvailableAfterWire(f, rest);
    UnescapeWire(f, Available(rest));
    WholeFrameExtends(proto, f, fr, Unescape(Available(rest)));
    WireLengthOfWire(f, Available(rest));
  }

  /**
   * The intended parse waits for every proper part of a whole frame on the
   * wire, including one cut right after an escape token, from any state:
   * nothing is reported, and the next call reads the frame again from its start.
   */
  lemma IntendedWirePrefix(proto: Rctclient, ignoreCrc: bool, st: ParserState, lead: seq<byte>,
                           f: seq<byte>, fr: ResponseFrame, n: nat)
    requires WholeFrame(proto, f, fr) && 0 < n < |WireFrame(f)| && PassedOverOnWire(lead, st.currentPos)
    ensures IntendedParseStep(proto, ignoreCrc, st, lead + WireFrame(f)[..n])
         == (NoFrame, ParserState(st.currentPos, false, []))
  {
    var g, q := WirePrefixPieces(f, n);
    var buf := lead + WireFrame(f)[..n];
    assert buf == lead + WireFrame(g) + q;
    FindWireStartOfWire(st.currentPos, lead, g, q);
    WirePrefixUnescapes(lead, g, q);
    WholeFramePrefix(proto, f, fr, |g|);
    IntendedIncompleteAt(proto, ignoreCrc, st, buf, |lead|, ParserState(st.currentPos, false, []));
  }

  /** The bytes of a cut frame that the intended parser reads back are the frame's part `g`. */
  lemma WirePrefixUnescapes(lead: seq<byte>, g: seq<byte>, q: seq<byte>)
    requires g != [] && g[0] == StartToken && Available(q) == []
    ensures Unescape(Available((lead + WireFrame(g) + q)[|lead|..])) == g
  {
    SuffixAfterLead(lead, WireFrame(g), q);
    AvailableAfterWire(g, q);
    UnescapeWire(g, []);
    assert WireFrame(g) + [] == WireFrame(g) && g + [] == g;
  }

  /** A call of the intended parser whose frame is still incomplete reports nothing and keeps the cursor. */
  lemma IntendedIncompleteAt(proto: Rctclient, ignoreCrc: bool, st: ParserState, buf: seq<byte>, start: nat, want: ParserState)
    requires FindWireStart(buf, st.currentPos) == start && start <= |buf|
    requires Decode(proto, Unescape(Available(buf[start..]))).Incomplete?
    requires want.currentPos == st.currentPos && !want.completeFrame && want.escapeIndexes == []
    ensures IntendedParseStep(proto, ignoreCrc, st, buf) == (NoFrame, want)
  {
  }

  /**
   * A proper part of a frame on the wire is the wire form of a proper part
   * `g` of the frame, followed at most by the escape token of a pair cut in two.
   */
  lemma WirePrefixPieces(f: seq<byte>, n: nat) returns (g: seq<byte>, q: seq<byte>)
    requires |f| >= 1 && f[0] == StartToken && 0 < n < |WireFrame(f)|
    ensures 1 <= |g| < |f| && g == f[..|g|]
    ensures WireFrame(f)[..n] == WireFrame(g) + q
    ensures q == [] || q == [EscapeToken]
    ensures Available(q) == []
  {
    var t := f[1..];
    var j, cut := EscapePrefix(t, n - 1);
    g := f[..j + 1];
    q := if cut then [EscapeToken] else [];
    assert g[1..] == t[..j];
    assert WireFrame(f)[..n] == [f[0]] + Escape(t)[..n - 1];
    assert Dangling([EscapeToken]);
  }

  /** A prefix of escaped data ends at the escaped form of a prefix, or one byte into a pair. */
  lemma {:induction false} EscapePrefix(t: seq<byte>, m: nat) returns (j: nat, cut: bool)
    requires m < |Escape(t)|
    ensures j < |t|
    ensures Escape(t)[..m] == Escape(t[..j]) + (if cut then [EscapeToken] else [])
    decreases |t|
  {
    var h: seq<byte> := if IsReserved(t[0]) then [EscapeToken, t[0]] else [t[0]];
    var e := Escape(t[1..]);
    assert Escape(t) == h + e;
    if m < |h| {
      j, cut := 0, m == 1;
      assert t[..0] == [];
    } else {
      var j', cut' := EscapePrefix(t[1..], m - |h|);
      j, cut := j' + 1, cut';
      EscapePrefixStep(t, h, e, m, j', cut');
    }
  }

  lemma EscapePrefixStep(t: seq<byte>, h: seq<byte>, e: seq<byte>, m: nat, j': nat, cut: bool)
    requires t != [] && h == (if IsReserved(t[0]) then [EscapeToken, t[0]] else [t[0]]) && e == Escape(t[1..])
    requires |h| <= m <= |h| + |e| && j' < |t| - 1
    requires e[..m - |h|] == Escape(t[1..][..j']) + (if cut then [EscapeToken] else [])
    ensures Escape(t)[..m] == Escape(t[..j' + 1]) + (if cut then [EscapeToken] else [])
  {
    var c: seq<byte> := if cut then [EscapeToken] else [];
    EscapeHead(t, h);
    PrefixOfConcat(h, e, m);
    PrefixHead(t, j' + 1);
    EscapeHead(t[..j' + 1], h);
    ConcatAssoc(h, Escape(t[1..][..j']), c);
  }

  lemma EscapeHead(t: seq<byte>, h: seq<byte>)
    requires t != [] && h == (if IsReserved(t[0]) then [EscapeToken, t[0]] else [t[0]])
    ensures Escape(t) == h + Escape(t[1..])
  {
  }

  lemma PrefixHead(t: seq<byte>, j: nat)
    requires 0 < j <= |t|
    ensures t[..j] != [] && t[..j][0] == t[0] && t[..j][1..] == t[1..][..j - 1]
  {
  }

  lemma ConcatAssoc(a: seq<byte>, b: seq<byte>, c: seq<byte>)
    ensures (a + b) + c == a + (b + c)
  {
  }

  lemma PrefixOfConcat(h: seq<byte>, e: seq<byte>, m: nat)
    requires |h| <= m <= |h| + |e|
    ensures (h + e)[..m] == h + e[..m - |h|]
  {
  }

  /**
   * With the cursor at the frame's end on the wire, the start token that
   * `CursorPassesNextStart` passes over is the next one the search finds.
   */
  lemma IntendedCursorFindsNextStart(proto: Rctclient, ignoreCrc: bool, f: seq<byte>, fr: ResponseFrame)
    requires WholeFrame(proto, f, fr) && NeedsNoEscaping(f)
    ensures var buf := [0x00, 0x00] + f + [0x2B, 0x05, 0x2D, 0x2D];
      var (r, st') := IntendedParseStep(proto, ignoreCrc, ParserState(0, true, []), buf);
      && r == Frame(fr) && st'.completeFrame && st'.currentPos == |f| + 2
      && FindWireStart(buf, st'.currentPos) == |f| + 2
  {
    PlainWire(f);
    assert PassedOverOnWire([0x00, 0x00], 0);
    IntendedWholeFrame(proto, ignoreCrc, ParserState(0, true, []), [0x00, 0x00], f, fr, [0x2B, 0x05, 0x2D, 0x2D]);
    assert !IsReserved(f[|f| - 1]);
    SecondWireStart(f);
  }

  /** The corrected search, from the end of the frame, finds the second start token of that buffer. */
  lemma SecondWireStart(f: seq<byte>)
    requires f != [] && f[|f| - 1] != EscapeToken
    ensures FindWireStart([0x00, 0x00] + f + [0x2B, 0x05, 0x2D, 0x2D], |f| + 2) == |f| + 2
  {
    var head: seq<byte> := [0x00, 0x00] + f;
    assert head[|f| + 1] == f[|f| - 1];
    WireStartAfterHead(head, [0x2B, 0x05, 0x2D, 0x2D], |f| + 2);
  }

  /** A lone start token right after a byte that is no escape token is what the corrected search finds there. */
  lemma WireStartAfterHead(head: seq<byte>, tail: seq<byte>, n: nat)
    requires n == |head| && head != [] && head[n - 1] != EscapeToken
    requires |tail| >= 2 && tail[0] == StartToken && tail[1] != StartToken
    ensures FindWireStart(head + tail, n) == n
  {
    var buf := head + tail;
    assert buf[n - 1] == head[n - 1] && buf[n] == tail[0] && buf[n + 1] == tail[1];
    assert EscapeRun(buf, n) == 0;
    FindWireStartAfterGarbage(buf, n, n);
  }

  // ===================================================== the parser object

  /**
   * `FrameParser`: the resume cursor and the escape indexes it keeps from one
   * call of `Parse` to the next, on a buffer the caller grows or replaces.
   */
  class FrameParser {
    const ignoreCrcMismatch: bool
    /** Whether the last frame was complete, so that the next call looks for a new one. */
    var completeFrame: bool
    /** Index in the caller's buffer where the next call starts to look for a frame. */
    var currentPos: nat
    /** Positions of the bytes an escape token protected, as recorded while unescaping. */
    var escapeIndexes: seq<nat>

    ghost function State(): ParserState
      reads this
    {
      ParserState(currentPos, completeFrame, escapeIndexes)
    }

    constructor (ignoreCrc: bool)
      ensures ignoreCrcMismatch == ignoreCrc
      ensures State() == ParserState(0, true, [])
    {
      ignoreCrcMismatch := ignoreCrc;
      currentPos := 0;
      escapeIndexes := [];
      new;
      Reset();
    }

    /** `reset`: the next call looks for a new frame, with no escape indexes recorded. */
    method Reset()
      modifies this`completeFrame, this`escapeIndexes
      ensures State() == old(State()).(completeFrame := true, escapeIndexes := [])
    {
      completeFrame := true;
      escapeIndexes := [];
    }

    /** `rewinded`: the caller starts a new buffer, and the next call reads it from index 0. */
    method Rewinded()
      modifies this`currentPos
      ensures State() == old(State()).(currentPos := 0)
    {
      currentPos := 0;
    }

    /**
     * `_unescape_buffer`: while an escape pair is left, delete the escape token
     * of the first one, searching again from index 0, and record its index,
     * offset by the cursor.
     */
    method UnescapeBuffer(buffer: seq<byte>) returns (newBuffer: seq<byte>)
      modifies this`escapeIndexes
      ensures newBuffer == UnescapeAsWritten(buffer)
      ensures escapeIndexes == old(escapeIndexes) + AsWrittenPositions(buffer, currentPos)
    {
      var found;
      newBuffer, found := UnescapeFrom(buffer, currentPos);
      escapeIndexes := escapeIndexes + found;
    }

    /** The loop of `_unescape_buffer`, with the indexes it appends collected in `found`. */
    static method UnescapeFrom(buffer: seq<byte>, offset: nat) returns (newBuffer: seq<byte>, found: seq<nat>)
      ensures newBuffer == UnescapeAsWritten(buffer)
      ensures found == AsWrittenPositions(buffer, offset)
    {
      newBuffer := buffer;
      found := [];
      var pos := FindEscapedByte(newBuffer);
      while pos >= 0
        invariant pos == FindEscapedByte(newBuffer)
        invariant UnescapeAsWritten(newBuffer) == UnescapeAsWritten(buffer)
        invariant found + AsWrittenPositions(newBuffer, offset) == AsWrittenPositions(buffer, offset)
        decreases |newBuffer|
      {
        AsWrittenTurn(found, newBuffer, offset, pos);
        newBuffer := newBuffer[..pos] + newBuffer[pos + 1..];
        found := found + [pos + offset];
        pos := FindEscapedByte(newBuffer);
      }
      assert found + [] == found;
    }

    /**
     * The start-token search at the top of `parse`, from the cursor on: the
     * frame start, or -1, and the index the loop stops at.
     */
    static method FindStartToken(buffer: seq<byte>, cursor: nat) returns (start: int, i: nat)
      ensures start == FindStart(buffer, cursor)
      ensures start >= 0 ==> i == start + 1
    {
      i := cursor;
      start := -1;
      var length := |buffer|;
      ghost var target := FindStart(buffer, cursor);
      while start < 0 && i < length
        invariant start < 0 ==> start == -1 && FindStart(buffer, i) == target
        invariant start >= 0 ==> start == target && i == start + 1
        decreases length - i
      {
        start, i := SearchTurn(buffer, i);
      }
    }

    /** One turn of the search loop, at index `i`: the frame start, or the index to go on from. */
    static method SearchTurn(buffer: seq<byte>, i: nat) returns (start: int, next: nat)
      requires i < |buffer|
      ensures next > i
      ensures start >= 0 ==> start == FindStart(buffer, i) && next == start + 1
      ensures start < 0 ==> start == -1 && FindStart(buffer, next) == FindStart(buffer, i)
    {
      start := -1;
      next := i;
      if buffer[i] == StartToken {
        if !(i > 0 && buffer[i - 1] == EscapeToken) {
          var j := SkipStartTokens(buffer, i + 1);
          if j == i + 1 {
            FindStartAccepts(buffer, i);
            start := i;
          } else {
            FindStartSkipsRun(buffer, i, j);
            next := j;
          }
        } else {
          FindStartPasses(buffer, i);
        }
      } else {
        FindStartPasses(buffer, i);
      }
      next := next + 1;
    }

    /** The inner loop of the search: past a run of start tokens. */
    static method SkipStartTokens(buffer: seq<byte>, from: nat) returns (j: nat)
      requires from <= |buffer|
      ensures j == RunEnd(buffer, from)
    {
      j := from;
      while j < |buffer| && buffer[j] == StartToken
        invariant from <= j <= |buffer|
        invariant RunEnd(buffer, j) == RunEnd(buffer, from)
        decreases |buffer| - j
      {
        j := j + 1;
      }
    }

    /** The loop that ends `parse`: one step further at the first escape index at or before the cursor. */
    method SkipEscapeIndex()
      modifies this`currentPos
      ensures currentPos == CursorAfter(old(currentPos), escapeIndexes)
    {
      ghost var pos0 := currentPos;
      var k := 0;
      while k < |escapeIndexes|
        invariant k <= |escapeIndexes|
        invariant currentPos == pos0
        invariant CursorAfter(pos0, escapeIndexes) == CursorAfter(pos0, escapeIndexes[k..])
      {
        if currentPos >= escapeIndexes[k] {
          currentPos := currentPos + 1;
          break;
        }
        assert escapeIndexes[k..][1..] == escapeIndexes[k + 1..];
        k := k + 1;
      }
    }

    /**
     * `parse`: look for a frame from the cursor on, and return it when the
     * buffer holds all of it. The two exceptions of the source are results here.
     */
    method Parse(buffer: seq<byte>, proto: Rctclient) returns (frame: ParseResult)
      modifies this
      ensures (frame, State()) == ParseStep(proto, ignoreCrcMismatch, old(State()), buffer)
    {
      frame := NoFrame;
      var length := |buffer|;
      if completeFrame && currentPos < length {
        Reset();
      }
      var start, i := FindStartToken(buffer, currentPos);
      if start < 0 {
        currentPos := length;
        completeFrame := false;
        return NoFrame;
      }

      var startTokenPos := i - 1;
      var unescaped := UnescapeBuffer(buffer[start..]);
      frame := ReadFrameAt(startTokenPos, unescaped, proto);
    }

    /** The rest of `parse`, on the unescaped frame that starts at `startTokenPos`. */
    method ReadFrameAt(startTokenPos: nat, unescaped: seq<byte>, proto: Rctclient) returns (frame: ParseResult)
      modifies this
      ensures (frame, State()) == ReadFrame(proto, ignoreCrcMismatch, old(State()), startTokenPos, unescaped)
    {
      frame := NoFrame;
      match Decode(proto, unescaped) {
        case Incomplete =>
          Reset();
          completeFrame := false;
        case BadCommand(c) =>
          return InvalidCommand(c, 1);
        case Complete(f, received, crcAt) =>
          if !f.crcOk && !ignoreCrcMismatch {
            return CrcMismatch(received, f.crc16, crcAt);
          }
          currentPos := startTokenPos + crcAt + FrameLengthCrc16;
          completeFrame := true;
          frame := Frame(f);
      }
      SkipEscapeIndex();
    }
  }
}
