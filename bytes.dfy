/** Byte strings and the '\n' splitting the framing protocol rests on: the
    behaviour of Go's `bytes.Count`, `bytes.Split` and `bytes.Join` with the
    one-byte separator "\n". */
module Bytes {
  newtype Byte = b: int | 0 <= b < 256
  type Bytes = seq<Byte>

  const NL: Byte := 10  // '\n', the line terminator
  const CR: Byte := 13  // '\r', dropped by ReadLine in front of a '\n'

  /** `bytes.Count(s, []byte("\n"))`: the number of terminators in `s`. */
  function Count(s: Bytes): (n: nat)
    ensures n <= |s|
  {
    if s == [] then 0
    else
      assert s == [s[0]] + s[1..];
      (if s[0] == NL then 1 else 0) + Count(s[1..])
  }

  /** The terminators of two runs of bytes add up. */
  lemma {:induction false} CountAppend(a: Bytes, b: Bytes)
    ensures Count(a + b) == Count(a) + Count(b)
  {
    if a != [] {
      CountAppend(a[1..], b);
      assert (a + b)[0] == a[0] && (a + b)[1..] == a[1..] + b;
    } else {
      assert a + b == b;
    }
  }

  /** The terminators counted are the occurrences of '\n' in the bytes. */
  lemma {:induction false} CountOccurrences(s: Bytes)
    ensures Count(s) == multiset(s)[NL]
  {
    if s != [] {
      CountOccurrences(s[1..]);
      assert s == [s[0]] + s[1..];
    }
  }

  /** Bytes without a terminator count none, and only those. */
  lemma CountZero(s: Bytes)
    ensures Count(s) == 0 <==> NL !in s
  {
    CountOccurrences(s);
  }

  /** `bytes.Split(s, []byte("\n"))`: the pieces of `s` between terminators,
      in order. There is always one more piece than there are terminators,
      and no piece holds a terminator. */
  function Split(s: Bytes): (parts: seq<Bytes>)
    ensures |parts| == Count(s) + 1
    ensures forall k :: 0 <= k < |parts| ==> NL !in parts[k]
  {
    if s == [] then [[]]
    else
      var rest := Split(s[1..]);
      if s[0] == NL then [[]] + rest
      else [[s[0]] + rest[0]] + rest[1..]
  }

  /** `bytes.Join(parts, []byte("\n"))`: exactly one terminator goes between
      two neighbouring parts, so lines joined hold one terminator fewer than
      there are lines. */
  function Join(parts: seq<Bytes>): (s: Bytes)
    ensures parts != [] && (forall k :: 0 <= k < |parts| ==> NL !in parts[k]) ==> Count(s) == |parts| - 1
  {
    if parts == [] then []
    else
      CountZero(parts[0]);
      if |parts| == 1 then parts[0]
      else
        CountAppend(parts[0] + [NL], Join(parts[1..]));
        CountAppend(parts[0], [NL]);
        parts[0] + [NL] + Join(parts[1..])
  }

  /** Every part followed by one terminator: what writing the parts one after
      the other, each with its '\n', puts on a pipe. */
  function Terminated(parts: seq<Bytes>): Bytes
  {
    if parts == [] then [] else parts[0] + [NL] + Terminated(parts[1..])
  }

  /** The pieces of every part, in order (the physical lines of a run of
      documents). */
  function SplitAll(parts: seq<Bytes>): (lines: seq<Bytes>)
    ensures forall k :: 0 <= k < |lines| ==> NL !in lines[k]
  {
    if parts == [] then [] else Split(parts[0]) + SplitAll(parts[1..])
  }

  /** Splitting and joining again gives back the original bytes. */
  lemma {:induction false} JoinSplit(s: Bytes)
    ensures Join(Split(s)) == s
  {
    if s != [] {
      var rest := Split(s[1..]);
      JoinSplit(s[1..]);
      SplitCons(s[0], s[1..]);
      assert s == [s[0]] + s[1..];
      if s[0] == NL {
        JoinCons([], rest);
      } else {
        JoinHead(s[0], rest);
      }
    }
  }

  /** Join of a part in front of others, one step of its definition. */
  lemma JoinCons(p: Bytes, ps: seq<Bytes>)
    ensures Join([p] + ps) == if ps == [] then p else p + [NL] + Join(ps)
  {
    assert ([p] + ps)[0] == p && ([p] + ps)[1..] == ps;
  }

  /** A byte in front of the first part is a byte in front of the join. */
  lemma JoinHead(x: Byte, r: seq<Bytes>)
    requires |r| > 0
    ensures Join([[x] + r[0]] + r[1..]) == [x] + Join(r)
  {
    var ps := [[x] + r[0]] + r[1..];
    assert ps[0] == [x] + r[0] && ps[1..] == r[1..];
    if |r| > 1 {
      assert Join(ps) == ([x] + r[0]) + [NL] + Join(r[1..]);
      assert Join(r) == r[0] + [NL] + Join(r[1..]);
      SeqAssoc([x], r[0] + [NL], Join(r[1..]));
      assert ([x] + r[0]) + [NL] == [x] + (r[0] + [NL]);
    }
  }

  /** A run of bytes without a terminator is a single piece. */
  lemma {:induction false} SplitLine(a: Bytes)
    requires NL !in a
    ensures Split(a) == [a]
  {
    if a != [] {
      assert NL !in a[1..] by {
        forall k | 0 <= k < |a[1..]| ensures a[1..][k] != NL { assert a[1..][k] == a[k + 1]; }
      }
      SplitLine(a[1..]);
      assert a == [a[0]] + a[1..];
    }
  }

  /** Split of a byte in front of `t`, one step of its definition. */
  lemma SplitCons(x: Byte, t: Bytes)
    ensures Split([x] + t) == if x == NL then [[]] + Split(t) else [[x] + Split(t)[0]] + Split(t)[1..]
  {
    assert ([x] + t)[0] == x && ([x] + t)[1..] == t;
  }

  /** A terminator between `a` and `b` separates their pieces. */
  lemma {:induction false} SplitAround(a: Bytes, b: Bytes)
    ensures Split(a + [NL] + b) == Split(a) + Split(b)
  {
    if a == [] {
      assert a + [NL] + b == [NL] + b;
      SplitCons(NL, b);
    } else {
      var t := a[1..] + [NL] + b;
      assert a + [NL] + b == [a[0]] + t;
      assert a == [a[0]] + a[1..];
      SplitAround(a[1..], b);
      SplitCons(a[0], t);
      SplitCons(a[0], a[1..]);
      PiecesCons(a[0], Split(a[1..]), Split(b));
    }
  }

  /** The sequence algebra behind SplitAround: the first piece of a join
      gains the byte put in front of it. */
  lemma PiecesCons(x: Byte, r: seq<Bytes>, q: seq<Bytes>)
    requires |r| > 0
    ensures [[x] + (r + q)[0]] + (r + q)[1..] == ([[x] + r[0]] + r[1..]) + q
    ensures [[]] + (r + q) == ([[]] + r) + q
  {
    assert (r + q)[1..] == r[1..] + q;
  }

  /** The last piece is empty exactly when the bytes are empty or end with
      a terminator: it holds what follows the final '\n'. */
  lemma {:induction false} SplitLast(s: Bytes)
    ensures var p := Split(s); p[|p| - 1] == [] <==> s == [] || s[|s| - 1] == NL
  {
    if s != [] {
      var t := s[1..];
      var q := Split(t);
      var p := Split(s);
      SplitLast(t);
      SplitCons(s[0], t);
      assert s == [s[0]] + t;
      LastOfCons(s);
      if s[0] == NL {
        assert p == [[]] + q;
        assert p[|p| - 1] == q[|q| - 1];
      } else if |q| == 1 {
        assert p == [[s[0]] + q[0]];
        LastNotTerminator(t);
      } else {
        assert p == [[s[0]] + q[0]] + q[1..];
        assert p[|p| - 1] == q[|q| - 1];
      }
    }
  }

  /** The last byte of a non-empty run is its first byte or the last of the
      rest. */
  lemma LastOfCons(s: Bytes)
    requires s != []
    ensures s[|s| - 1] == if |s| == 1 then s[0] else s[1..][|s| - 2]
  {
  }

  /** Bytes that split into a single piece do not end with a terminator. */
  lemma LastNotTerminator(t: Bytes)
    requires |Split(t)| == 1
    ensures t == [] || t[|t| - 1] != NL
  {
    CountZero(t);
    if t != [] {
      assert t[|t| - 1] in t;
    }
  }

  /** Joining terminator-free parts and splitting again gives back the parts. */
  lemma {:induction false} SplitJoin(parts: seq<Bytes>)
    requires |parts| > 0
    requires forall k :: 0 <= k < |parts| ==> NL !in parts[k]
    ensures Split(Join(parts)) == parts
  {
    if |parts| == 1 {
      SplitLine(parts[0]);
    } else {
      SplitLine(parts[0]);
      SplitJoin(parts[1..]);
      SplitAround(parts[0], Join(parts[1..]));
      assert parts == [parts[0]] + parts[1..];
    }
  }

  /** Terminating every part is joining them and terminating the last. */
  lemma {:induction false} TerminatedJoin(parts: seq<Bytes>)
    requires |parts| > 0
    ensures Terminated(parts) == Join(parts) + [NL]
  {
    if |parts| > 1 {
      TerminatedJoin(parts[1..]);
    }
  }

  /** The pieces of terminated documents are the pieces of each document,
      followed by the one empty piece after the final terminator. */
  lemma {:induction false} SplitTerminated(docs: seq<Bytes>)
    ensures Split(Terminated(docs)) == SplitAll(docs) + [[]]
  {
    if docs != [] {
      SplitTerminated(docs[1..]);
      SplitAround(docs[0], Terminated(docs[1..]));
    }
  }

  /** Splitting a terminated sequence of terminator-free lines gives back the
      lines and one empty piece. */
  lemma {:induction false} SplitTerminatedLines(lines: seq<Bytes>)
    requires forall k :: 0 <= k < |lines| ==> NL !in lines[k]
    ensures Split(Terminated(lines)) == lines + [[]]
  {
    if lines != [] {
      SplitTerminatedLines(lines[1..]);
      SplitLine(lines[0]);
      SplitAround(lines[0], Terminated(lines[1..]));
      assert lines == [lines[0]] + lines[1..];
    }
  }

  /** Terminating two runs of parts one after the other. */
  lemma {:induction false} TerminatedAppend(a: seq<Bytes>, b: seq<Bytes>)
    ensures Terminated(a + b) == Terminated(a) + Terminated(b)
  {
    if a == [] {
      assert a + b == b;
    } else {
      TerminatedAppend(a[1..], b);
      assert (a + b)[0] == a[0] && (a + b)[1..] == a[1..] + b;
      SeqAssoc(a[0] + [NL], Terminated(a[1..]), Terminated(b));
    }
  }

  /** Writing every piece of every document with its own '\n' writes the
      documents, each with one '\n'. */
  lemma {:induction false} TerminatedSplitAll(docs: seq<Bytes>)
    ensures Terminated(SplitAll(docs)) == Terminated(docs)
  {
    if docs != [] {
      TerminatedSplitAll(docs[1..]);
      TerminatedAppend(Split(docs[0]), SplitAll(docs[1..]));
      TerminatedJoin(Split(docs[0]));
      JoinSplit(docs[0]);
    }
  }

  /** Concatenation is associative; stated once for every element type. */
  lemma SeqAssoc<T>(a: seq<T>, b: seq<T>, c: seq<T>)
    ensures a + (b + c) == (a + b) + c
  {
  }
}
