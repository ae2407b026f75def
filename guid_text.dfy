/**
 * The server GUID string: the `{:X}` tokens of a run of bytes joined by single
 * spaces, and the reverse direction (splitting at spaces and parsing each token).
 */
module GuidText {
  import opened Bytes
  import opened Hex

  /** The tokens of `bs`, in order. */
  function Tokens(bs: seq<byte>): (ts: seq<string>)
    ensures |ts| == |bs|
    ensures forall i | 0 <= i < |bs| :: ts[i] == Token(bs[i])
  {
    seq(|bs|, i requires 0 <= i < |bs| => Token(bs[i]))
  }

  /** Joins strings with one space between neighbours, appending at the end as the source's loop does. */
  function Join(ts: seq<string>): string
    requires |ts| >= 1
  {
    if |ts| == 1 then ts[0] else Join(ts[..|ts| - 1]) + " " + ts[|ts| - 1]
  }

  /** The GUID string of a non-empty run of bytes. */
  function Render(bs: seq<byte>): string
    requires |bs| >= 1
  {
    Join(Tokens(bs))
  }

  /** Splits a string at every space (an empty string gives one empty piece). */
  function Split(s: string): (pieces: seq<string>)
    ensures |pieces| >= 1
  {
    if s == [] then [""]
    else
      var init := Split(s[..|s| - 1]);
      if s[|s| - 1] == ' ' then init + [""]
      else init[..|init| - 1] + [init[|init| - 1] + [s[|s| - 1]]]
  }

  /** Parses a sequence of hexadecimal tokens, each of which must denote a byte. */
  function ParseBytes(ts: seq<string>): Option<seq<byte>>
  {
    if ts == [] then Some([])
    else
      match (ParseHex(ts[0]), ParseBytes(ts[1..]))
      case (Some(v), Some(rest)) => if v < 256 then Some([v as byte] + rest) else None
      case _ => None
  }

  /** Reads a GUID string back into its bytes. */
  function ParseGuid(s: string): Option<seq<byte>>
  {
    ParseBytes(Split(s))
  }

  predicate NoSpace(t: string)
  {
    forall i | 0 <= i < |t| :: t[i] != ' '
  }

  /** Appending one more byte appends a space and its token: the step of the source's loop. */
  lemma RenderSnoc(bs: seq<byte>, b: byte)
    requires |bs| >= 1
    ensures Render(bs + [b]) == Render(bs) + " " + Token(b)
  {
    var ts := Tokens(bs + [b]);
    assert ts[..|ts| - 1] == Tokens(bs);
  }

  /** A string without spaces is a single piece. */
  lemma {:induction false} SplitNoSpace(t: string)
    requires NoSpace(t)
    ensures Split(t) == [t]
  {
    if t != [] {
      SplitNoSpace(t[..|t| - 1]);
      assert t[..|t| - 1] + [t[|t| - 1]] == t;
    }
  }

  /** Splitting `a + " " + t`, with `t` free of spaces, adds `t` as the last piece. */
  lemma {:induction false} SplitSpace(a: string, t: string)
    requires NoSpace(t)
    ensures Split(a + " " + t) == Split(a) + [t]
  {
    var s := a + " " + t;
    if t == [] {
      assert s[..|s| - 1] == a;
    } else {
      var t' := t[..|t| - 1];
      SplitSpace(a, t');
      assert s[..|s| - 1] == a + " " + t';
      assert t' + [t[|t| - 1]] == t;
    }
  }

  /** Splitting a join of space-free pieces gives the pieces back. */
  lemma {:induction false} SplitJoin(ts: seq<string>)
    requires |ts| >= 1
    requires forall i | 0 <= i < |ts| :: NoSpace(ts[i])
    ensures Split(Join(ts)) == ts
  {
    if |ts| == 1 {
      SplitNoSpace(ts[0]);
    } else {
      var init := ts[..|ts| - 1];
      SplitJoin(init);
      SplitSpace(Join(init), ts[|ts| - 1]);
      assert init + [ts[|ts| - 1]] == ts;
    }
  }

  /** A join of space-free pieces holds one space fewer than it has pieces. */
  lemma {:induction false} JoinSpaces(ts: seq<string>)
    requires |ts| >= 1
    requires forall i | 0 <= i < |ts| :: NoSpace(ts[i])
    ensures multiset(Join(ts))[' '] == |ts| - 1
  {
    var last := ts[|ts| - 1];
    assert ' ' !in last;
    assert multiset(last)[' '] == 0;
    if |ts| > 1 {
      JoinSpaces(ts[..|ts| - 1]);
      assert Join(ts) == Join(ts[..|ts| - 1]) + " " + last;
    }
  }

  /** Parsing the tokens of a run of bytes gives the bytes back. */
  lemma {:induction false} ParseTokens(bs: seq<byte>)
    ensures ParseBytes(Tokens(bs)) == Some(bs)
  {
    if bs != [] {
      TokenRoundTrip(bs[0]);
      ParseTokens(bs[1..]);
      assert Tokens(bs)[1..] == Tokens(bs[1..]);
      assert [bs[0]] + bs[1..] == bs;
    }
  }

  /**
   * The GUID string of `bs` is `|bs|` well-formed tokens separated by single
   * spaces, token `i` being that of `bs[i]`, and it parses back to `bs`.
   */
  lemma RenderShape(bs: seq<byte>)
    requires |bs| >= 1
    ensures Split(Render(bs)) == Tokens(bs)
    ensures forall i | 0 <= i < |bs| :: IsToken(Split(Render(bs))[i])
    ensures multiset(Render(bs))[' '] == |bs| - 1
    ensures ParseGuid(Render(bs)) == Some(bs)
  {
    var ts := Tokens(bs);
    forall i | 0 <= i < |ts| ensures NoSpace(ts[i]) {
      assert IsToken(ts[i]);
    }
    SplitJoin(ts);
    JoinSpaces(ts);
    ParseTokens(bs);
  }
}
