/** The `>`-delimited segments of a receive buffer: the unit both stream framers cut the
    device's byte stream into. */
module Framing {
  import opened JsString

  /** The `>`-terminated pieces of `b`, in order, each without its `>`. */
  function Segments(b: string): seq<string>
    decreases |b|
  {
    var i := IndexOf(b, '>');
    if i == -1 then [] else [b[..i]] + Segments(b[i + 1..])
  }

  /** The text after the last `>` of `b` (all of `b` when it has none). */
  function Remainder(b: string): string
    decreases |b|
  {
    var i := IndexOf(b, '>');
    if i == -1 then b else Remainder(b[i + 1..])
  }

  /** Each segment followed by its `>`, concatenated. */
  function Terminated(gs: seq<string>): string {
    if gs == [] then "" else gs[0] + ">" + Terminated(gs[1..])
  }

  /** Cutting a buffer written as a `>`-free segment, `>`, and the rest. */
  lemma Unfold(g: string, t: string)
    requires '>' !in g
    ensures Segments(g + ">" + t) == [g] + Segments(t)
    ensures Remainder(g + ">" + t) == Remainder(t)
  {
    Assoc(g, ">", t);
    IndexOfAfter(g, '>', ">" + t);
    assert (g + ">" + t)[..|g|] == g && (g + ">" + t)[|g| + 1..] == t;
  }

  /** `Unfold` on a buffer that goes on with `y`. */
  lemma UnfoldAppend(g: string, t: string, y: string)
    requires '>' !in g
    ensures Segments(g + ">" + t + y) == [g] + Segments(t + y)
    ensures Remainder(g + ">" + t + y) == Remainder(t + y)
  {
    Assoc(g + ">", t, y);
    Unfold(g, t + y);
  }

  /** A buffer holding a `>` is its first segment, that `>`, and the rest. */
  lemma Cut(b: string) returns (g: string, t: string)
    requires '>' in b
    ensures b == g + ">" + t && '>' !in g && |t| < |b|
    ensures g == b[..IndexOf(b, '>')] && t == b[IndexOf(b, '>') + 1..]
    ensures Segments(b) == [g] + Segments(t) && Remainder(b) == Remainder(t)
  {
    var i := IndexOf(b, '>');
    g, t := b[..i], b[i + 1..];
    assert b == b[..i] + [b[i]] + b[i + 1..];
  }

  /** The segments, each followed by `>`, then the remainder, spell the buffer exactly. */
  lemma {:induction false} Partition(b: string)
    ensures Terminated(Segments(b)) + Remainder(b) == b
    decreases |b|
  {
    if '>' in b {
      var g, t := Cut(b);
      Partition(t);
      TerminatedCons(g, Segments(t));
      Assoc(g + ">", Terminated(Segments(t)), Remainder(t));
    }
  }

  /** The remainder holds no `>`. */
  lemma {:induction false} RemainderOpen(b: string)
    ensures '>' !in Remainder(b)
    decreases |b|
  {
    if '>' in b {
      var g, t := Cut(b);
      RemainderOpen(t);
    }
  }

  /** No segment holds a `>`. */
  lemma {:induction false} SegmentsOpen(b: string)
    ensures forall k :: 0 <= k < |Segments(b)| ==> '>' !in Segments(b)[k]
    decreases |b|
  {
    if '>' in b {
      var g, t := Cut(b);
      SegmentsOpen(t);
      var gs := [g] + Segments(t);
      forall k | 0 <= k < |gs|
        ensures '>' !in gs[k]
      {
        if k > 0 {
          assert gs[k] == Segments(t)[k - 1];
        }
      }
    }
  }

  /** There is one segment per `>`. */
  lemma {:induction false} SegmentCount(b: string)
    ensures |Segments(b)| == Count(b, '>')
    decreases |b|
  {
    if '>' !in b {
      CountAbsent(b, '>');
    } else {
      var g, t := Cut(b);
      SegmentCount(t);
      CountAbsent(g, '>');
      CountAppend(g + ">", t, '>');
      CountAppend(g, ">", '>');
      assert Count(">", '>') == 1;
    }
  }

  predicate IsSuffix(r: string, b: string) {
    |r| <= |b| && r == b[|b| - |r|..]
  }

  /** A suffix of `t` is a suffix of `a + t`. */
  lemma SuffixOfAppend(r: string, a: string, t: string)
    requires IsSuffix(r, t)
    ensures IsSuffix(r, a + t)
  {
    assert (a + t)[|a + t| - |r|..] == t[|t| - |r|..];
  }

  lemma SuffixTrans(x: string, y: string, z: string)
    requires IsSuffix(x, y) && IsSuffix(y, z)
    ensures IsSuffix(x, z)
  {
    assert z[|z| - |y|..][|y| - |x|..] == z[|z| - |x|..];
  }

  /** The remainder of `b` is a suffix of `b`. */
  lemma {:induction false} RemainderSuffix(b: string)
    ensures IsSuffix(Remainder(b), b)
    decreases |b|
  {
    if '>' in b {
      var g, t := Cut(b);
      RemainderSuffix(t);
      SuffixOfAppend(Remainder(t), g + ">", t);
    } else {
      NoClose(b);
      assert b[0..] == b;
    }
  }

  /** Cutting `x + y` is cutting `x`, then cutting what `x` left over followed by `y`. */
  lemma {:induction false} SegmentsAppend(x: string, y: string)
    ensures Segments(x + y) == Segments(x) + Segments(Remainder(x) + y)
    decreases |x|
  {
    if '>' in x {
      var g, t := Cut(x);
      UnfoldAppend(g, t, y);
      SegmentsAppend(t, y);
      ListAssoc([g], Segments(t), Segments(Remainder(t) + y));
    } else {
      NoClose(x);
    }
  }

  /** What `x + y` leaves over is what `x`'s leftover followed by `y` leaves over. */
  lemma {:induction false} RemainderAppend(x: string, y: string)
    ensures Remainder(x + y) == Remainder(Remainder(x) + y)
    decreases |x|
  {
    if '>' in x {
      var g, t := Cut(x);
      UnfoldAppend(g, t, y);
      RemainderAppend(t, y);
    } else {
      NoClose(x);
    }
  }

  lemma TerminatedCons(g: string, gs: seq<string>)
    ensures Terminated([g] + gs) == g + ">" + Terminated(gs)
  {
    assert ([g] + gs)[1..] == gs;
  }

  lemma ListAssoc(a: seq<string>, b: seq<string>, c: seq<string>)
    ensures a + (b + c) == (a + b) + c
  {
  }

  /** A buffer without `>` has no segment and is its own remainder. */
  lemma NoClose(x: string)
    requires '>' !in x
    ensures Segments(x) == [] && Remainder(x) == x
  {
  }
}
