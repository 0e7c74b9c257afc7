/**
 * Byte strings, the CRLF line structure and C-string helpers shared by the
 * model of copynotice.  The tool writes UTF-8 (char8_t) output; a byte is
 * modelled as an integer in [0, 256).
 */
module Common {

  type byte = b: int | 0 <= b < 256
  type Bytes = seq<byte>

  datatype Option<+T> = None | Some(value: T)

  const CR: byte := 13
  const LF: byte := 10
  const CRLF: Bytes := [CR, LF]

  /** `s.starts_with(prefix)` of std::basic_string and std::basic_string_view. */
  predicate StartsWith<T(==)>(s: seq<T>, prefix: seq<T>)
  {
    |prefix| <= |s| && s[..|prefix|] == prefix
  }

  /** A CRLF pair starts at index i of s. */
  predicate CrlfAt(s: Bytes, i: int)
  {
    0 <= i && i + 1 < |s| && s[i] == CR && s[i + 1] == LF
  }

  /** s contains a CRLF pair somewhere. */
  predicate HasCrlf(s: Bytes)
  {
    exists i :: 0 <= i < |s| && CrlfAt(s, i)
  }

  /**
   * `s.find(u8"\r\n", from)`, with the "not found" result (npos) replaced by
   * |s|, which is what create_file does with it.
   */
  function FindCrlf(s: Bytes, from: nat): (i: nat)
    requires from <= |s|
    ensures from <= i <= |s|
    ensures i < |s| ==> CrlfAt(s, i)
    ensures forall j :: from <= j < i ==> !CrlfAt(s, j)
    decreases |s| - from
  {
    if from + 1 >= |s| then |s|
    else if s[from] == CR && s[from + 1] == LF then from
    else FindCrlf(s, from + 1)
  }

  /**
   * The pieces of s between CRLF pairs found left to right; the fragment after
   * the last pair is a piece too, even when it is empty.
   */
  function Split(s: Bytes): (pieces: seq<Bytes>)
    ensures |pieces| >= 1
    decreases |s|
  {
    var e := FindCrlf(s, 0);
    if e == |s| then [s] else [s[..e]] + Split(s[e + 2..])
  }

  /** Every sequence of ps with p in front: paths below a directory, comment lines of a notice. */
  function Prefixed<T>(p: seq<T>, ps: seq<seq<T>>): (r: seq<seq<T>>)
    ensures |r| == |ps|
    ensures forall k :: 0 <= k < |ps| ==> r[k] == p + ps[k]
  {
    if ps == [] then [] else [p + ps[0]] + Prefixed(p, ps[1..])
  }

  /** The pieces put back together with a CRLF between neighbours. */
  function Join(pieces: seq<Bytes>): Bytes
  {
    if pieces == [] then []
    else if |pieces| == 1 then pieces[0]
    else pieces[0] + CRLF + Join(pieces[1..])
  }

  /** Every line followed by its CRLF terminator. */
  function Flatten(lines: seq<Bytes>): Bytes
  {
    if lines == [] then [] else lines[0] + CRLF + Flatten(lines[1..])
  }

  /** The number of CRLF pairs in s, counted left to right without overlap. */
  function CountCrlf(s: Bytes): nat
    decreases |s|
  {
    if |s| < 2 then 0
    else if s[0] == CR && s[1] == LF then 1 + CountCrlf(s[2..])
    else CountCrlf(s[1..])
  }

  /** The bytes of a NUL-terminated buffer up to its first NUL (strlen's view of it). */
  function CString(b: Bytes): (s: Bytes)
    ensures |s| <= |b| && s == b[..|s|]
    ensures 0 !in s
    ensures |s| < |b| ==> b[|s|] == 0
  {
    if b == [] || b[0] == 0 then [] else [b[0]] + CString(b[1..])
  }

  /** True when one of the characters of `set` occurs in s (find_first_of != npos). */
  predicate ContainsAnyOf(s: string, chars: string)
  {
    exists i :: 0 <= i < |s| && s[i] in chars
  }

  // ---------------------------------------------------------------------------
  // Lemmas about the CRLF structure

  /** FindCrlf from `from` is the first CRLF of the suffix starting at `from`, shifted. */
  lemma {:induction false} FindCrlfShift(s: Bytes, from: nat)
    requires from <= |s|
    ensures FindCrlf(s, from) == from + FindCrlf(s[from..], 0)
  {
    var i := FindCrlf(s, from);
    var k := FindCrlf(s[from..], 0);
    assert forall j :: 0 <= j < |s| - from ==> (CrlfAt(s[from..], j) <==> CrlfAt(s, from + j));
    assert i < |s| ==> CrlfAt(s[from..], i - from);
    assert from + k < |s| ==> CrlfAt(s, from + k);
  }

  /** A CRLF at i with none before it is what FindCrlf finds. */
  lemma {:induction false} FindCrlfIs(s: Bytes, i: nat)
    requires CrlfAt(s, i)
    requires forall j :: 0 <= j < i ==> !CrlfAt(s, j)
    ensures FindCrlf(s, 0) == i
  {
  }

  /** A byte string without CRLF pairs is its own only piece. */
  lemma {:induction false} FindCrlfNone(s: Bytes)
    requires !HasCrlf(s)
    ensures FindCrlf(s, 0) == |s|
  {
  }

  /** The prefix of s before its first CRLF holds no CRLF. */
  lemma {:induction false} NoCrlfBeforeFirst(s: Bytes, e: nat)
    requires e <= |s|
    requires forall j :: 0 <= j < e ==> !CrlfAt(s, j)
    ensures !HasCrlf(s[..e])
  {
    forall j | CrlfAt(s[..e], j)
      ensures false
    {
      assert CrlfAt(s, j);
    }
  }

  /** One step of Split: the piece before the first CRLF, then the split of what follows it. */
  lemma {:induction false} SplitStep(s: Bytes)
    requires FindCrlf(s, 0) < |s|
    ensures var e := FindCrlf(s, 0);
            && e + 2 <= |s|
            && Split(s) == [s[..e]] + Split(s[e + 2..])
            && s == s[..e] + CRLF + s[e + 2..]
  {
    var e := FindCrlf(s, 0);
    assert s[e..e + 2] == CRLF;
    assert s == s[..e] + s[e..e + 2] + s[e + 2..];
  }

  /** Joining a piece in front of at least one more puts a CRLF between them. */
  lemma {:induction false} JoinCons(a: Bytes, r: seq<Bytes>)
    requires |r| >= 1
    ensures Join([a] + r) == a + CRLF + Join(r)
  {
    assert ([a] + r)[1..] == r;
  }

  /** Splitting and joining again gives back the notice. */
  lemma {:induction false} SplitJoin(s: Bytes)
    ensures Join(Split(s)) == s
    decreases |s|
  {
    var e := FindCrlf(s, 0);
    if e == |s| {
      assert s[..e] == s;
    } else {
      var rest := s[e + 2..];
      SplitJoin(rest);
      SplitStep(s);
      JoinCons(s[..e], Split(rest));
    }
  }

  /** No piece of a split holds a CRLF pair. */
  lemma {:induction false} SplitPiecesClean(s: Bytes)
    ensures forall k :: 0 <= k < |Split(s)| ==> !HasCrlf(Split(s)[k])
    decreases |s|
  {
    var e := FindCrlf(s, 0);
    NoCrlfBeforeFirst(s, e);
    if e == |s| {
      assert s[..e] == s;
    } else {
      var rest := s[e + 2..];
      SplitPiecesClean(rest);
      var ps := Split(s);
      assert ps == [s[..e]] + Split(rest);
      forall k | 0 <= k < |ps|
        ensures !HasCrlf(ps[k])
      {
        if k > 0 {
          assert ps[k] == Split(rest)[k - 1];
        }
      }
    }
  }

  /**
   * The converse: CRLF-free pieces joined with CRLF split back into the same
   * pieces.  With SplitJoin and SplitPiecesClean, Split(s) is the only CRLF-free decomposition of s.
   */
  lemma {:induction false} SplitUnique(ps: seq<Bytes>)
    requires |ps| >= 1
    requires forall k :: 0 <= k < |ps| ==> !HasCrlf(ps[k])
    ensures Split(Join(ps)) == ps
    decreases |ps|
  {
    var s := Join(ps);
    if |ps| == 1 {
      FindCrlfNone(ps[0]);
    } else {
      var a := ps[0];
      var r := Join(ps[1..]);
      assert s == a + CRLF + r;
      assert CrlfAt(s, |a|);
      forall j | 0 <= j < |a|
        ensures !CrlfAt(s, j)
      {
        if j + 1 < |a| {
          if CrlfAt(s, j) {
            assert CrlfAt(a, j);
          }
        } else {
          assert s[j + 1] == CR;
        }
      }
      FindCrlfIs(s, |a|);
      assert s[..|a|] == a;
      assert s[|a| + 2..] == r;
      SplitUnique(ps[1..]);
      assert ps == [a] + ps[1..];
    }
  }

  /** Counting skips a stretch without CRLF pairs. */
  lemma {:induction false} CountCrlfSkip(s: Bytes, i: nat, e: nat)
    requires i <= e <= |s|
    requires forall j :: i <= j < e ==> !CrlfAt(s, j)
    ensures CountCrlf(s[i..]) == CountCrlf(s[e..]) || (e == |s| && CountCrlf(s[i..]) == 0)
    decreases e - i
  {
    if i < e && |s| - i >= 2 {
      assert !CrlfAt(s, i);
      assert s[i..][1..] == s[i + 1..];
      CountCrlfSkip(s, i + 1, e);
      if e == |s| && CountCrlf(s[i + 1..]) == 0 {
      }
    } else if i < e {
      assert |s[i..]| < 2;
    }
  }

  /** A notice with k CRLF pairs splits into exactly k + 1 pieces. */
  lemma {:induction false} SplitCount(s: Bytes)
    ensures |Split(s)| == CountCrlf(s) + 1
    decreases |s|
  {
    var e := FindCrlf(s, 0);
    CountCrlfSkip(s, 0, e);
    assert s[0..] == s;
    if e == |s| {
      assert s[|s|..] == [];
    } else {
      var rest := s[e + 2..];
      assert s[e..][2..] == rest;
      SplitCount(rest);
    }
  }

  /** Joining lines and a last fragment is the same as terminating each line. */
  lemma {:induction false} JoinFlatten(lines: seq<Bytes>, last: Bytes)
    ensures Join(lines + [last]) == Flatten(lines) + last
    decreases |lines|
  {
    if lines != [] {
      JoinFlatten(lines[1..], last);
      assert (lines + [last])[1..] == lines[1..] + [last];
    }
  }

  lemma {:induction false} FlattenAppend(a: seq<Bytes>, b: seq<Bytes>)
    ensures Flatten(a + b) == Flatten(a) + Flatten(b)
    decreases |a|
  {
    if a != [] {
      FlattenAppend(a[1..], b);
      assert (a + b)[1..] == a[1..] + b;
      assert (a + b)[0] == a[0];
      calc {
        Flatten(a + b);
        a[0] + CRLF + Flatten(a[1..] + b);
        a[0] + CRLF + (Flatten(a[1..]) + Flatten(b));
        (a[0] + CRLF + Flatten(a[1..])) + Flatten(b);
      }
    } else {
      assert a + b == b;
    }
  }

  lemma {:induction false} CStringOfTerminated(s: Bytes, rest: Bytes)
    requires 0 !in s
    ensures CString(s + [0] + rest) == s
    decreases |s|
  {
    if s != [] {
      CStringOfTerminated(s[1..], rest);
      assert (s + [0] + rest)[1..] == s[1..] + [0] + rest;
    }
  }

  /** Concatenation is associative. */
  lemma {:induction false} AppendAssoc<T>(a: seq<T>, b: seq<T>, c: seq<T>)
    ensures a + (b + c) == (a + b) + c
  {
  }

  /** A prefix of a + b that ends within a is a prefix of a. */
  lemma {:induction false} TakeAppend<T>(a: seq<T>, b: seq<T>, k: nat)
    requires k <= |a|
    ensures (a + b)[..k] == a[..k]
  {
  }

  /** A suffix of a + b that starts within a is a suffix of a, then b. */
  lemma {:induction false} DropAppend<T>(a: seq<T>, b: seq<T>, k: nat)
    requires k <= |a|
    ensures (a + b)[k..] == a[k..] + b
  {
  }

  /** A prefix of a suffix is a slice. */
  lemma {:induction false} SliceTake<T>(a: seq<T>, i: nat, k: nat)
    requires i + k <= |a|
    ensures a[i..][..k] == a[i..i + k]
  {
  }

  /** A suffix of a suffix is a suffix. */
  lemma {:induction false} SliceDrop<T>(a: seq<T>, i: nat, k: nat)
    requires i + k <= |a|
    ensures a[i..][k..] == a[i + k..]
  {
  }

  /** Flatten of a line in front of more lines. */
  lemma {:induction false} FlattenCons(x: Bytes, ys: seq<Bytes>)
    ensures Flatten([x] + ys) == x + CRLF + Flatten(ys)
  {
    assert ([x] + ys)[1..] == ys;
  }

  /** Split of a byte string without CRLF is that string alone. */
  lemma {:induction false} SplitNone(s: Bytes)
    requires FindCrlf(s, 0) == |s|
    ensures Split(s) == [s]
  {
  }
}
