/**
 * The part of Python's `str` that the library relies on: `str.isspace()` for one
 * character and `str.split()` called without a separator.
 */
module PyStr {

  /** Python's whitespace characters (the code points for which `str.isspace()` holds). */
  predicate IsSpace(c: char) {
    var n := c as int;
    || 0x09 <= n <= 0x0D
    || 0x1C <= n <= 0x20
    || n == 0x85 || n == 0xA0 || n == 0x1680
    || 0x2000 <= n <= 0x200A
    || n == 0x2028 || n == 0x2029 || n == 0x202F || n == 0x205F || n == 0x3000
  }

  predicate AllSpace(s: string) {
    forall i :: 0 <= i < |s| ==> IsSpace(s[i])
  }

  /** A token of `str.split()`: non-empty and free of whitespace. */
  predicate IsToken(w: string) {
    |w| > 0 && forall i :: 0 <= i < |w| ==> !IsSpace(w[i])
  }

  /** Length of the longest whitespace prefix of `s`. */
  function SpaceRun(s: string): (n: nat)
    ensures n <= |s| && AllSpace(s[..n])
    ensures n < |s| ==> !IsSpace(s[n])
  {
    if s == [] || !IsSpace(s[0]) then 0 else 1 + SpaceRun(s[1..])
  }

  /** Length of the longest whitespace-free prefix of `s`. */
  function TokenRun(s: string): (n: nat)
    ensures n <= |s|
    ensures forall i :: 0 <= i < n ==> !IsSpace(s[i])
    ensures n < |s| ==> IsSpace(s[n])
  {
    if s == [] || IsSpace(s[0]) then 0 else 1 + TokenRun(s[1..])
  }

  /**
   * `s.split()`: skip a run of whitespace, take the following run of non-whitespace
   * as the next token, repeat until the string is used up.
   */
  function Split(s: string): (ws: seq<string>)
    ensures forall i :: 0 <= i < |ws| ==> IsToken(ws[i])
    decreases |s|
  {
    var t := s[SpaceRun(s)..];
    if t == [] then []
    else
      var n := TokenRun(t);
      [t[..n]] + Split(t[n..])
  }

  /** The characters of `s` that are not whitespace, in order. */
  function NonSpace(s: string): string {
    if s == [] then [] else (if IsSpace(s[0]) then [] else [s[0]]) + NonSpace(s[1..])
  }

  /** Concatenation of a list of strings (`''.join(ws)`). */
  function Concat(ws: seq<string>): string {
    if ws == [] then [] else ws[0] + Concat(ws[1..])
  }

  /** `sep.join(ws)`. */
  function Join(ws: seq<string>, sep: string): string {
    if |ws| == 0 then [] else if |ws| == 1 then ws[0] else ws[0] + sep + Join(ws[1..], sep)
  }

  lemma {:induction false} NonSpaceAppend(a: string, b: string)
    ensures NonSpace(a + b) == NonSpace(a) + NonSpace(b)
    decreases |a|
  {
    if a == [] {
      assert a + b == b;
    } else {
      assert (a + b)[1..] == a[1..] + b;
      NonSpaceAppend(a[1..], b);
    }
  }

  lemma {:induction false} NonSpaceOfSpace(s: string)
    requires AllSpace(s)
    ensures NonSpace(s) == []
    decreases |s|
  {
    if s != [] {
      NonSpaceOfSpace(s[1..]);
    }
  }

  lemma {:induction false} NonSpaceOfToken(w: string)
    requires forall i :: 0 <= i < |w| ==> !IsSpace(w[i])
    ensures NonSpace(w) == w
    decreases |w|
  {
    if w != [] {
      NonSpaceOfToken(w[1..]);
    }
  }

  /** What `split()` keeps: joining its tokens gives back exactly the non-whitespace characters. */
  lemma {:induction false} SplitKeepsNonSpace(s: string)
    ensures Concat(Split(s)) == NonSpace(s)
    decreases |s|
  {
    var k := SpaceRun(s);
    var t := s[k..];
    SliceAt(s, k);
    NonSpaceAppend(s[..k], t);
    NonSpaceOfSpace(s[..k]);
    if t != [] {
      var n := TokenRun(t);
      SliceAt(t, n);
      NonSpaceAppend(t[..n], t[n..]);
      NonSpaceOfToken(t[..n]);
      SplitKeepsNonSpace(t[n..]);
      ConcatCons(t[..n], Split(t[n..]));
    }
  }

  lemma SliceAt(s: string, k: nat)
    requires k <= |s|
    ensures s[..k] + s[k..] == s
  {
  }

  lemma ConcatCons(w: string, ws: seq<string>)
    ensures Concat([w] + ws) == w + Concat(ws)
  {
    assert ([w] + ws)[1..] == ws;
  }

  /** `split()` returns `[]` exactly when the string is empty or all whitespace. */
  lemma SplitEmptyIffBlank(s: string)
    ensures Split(s) == [] <==> AllSpace(s)
  {
    var k := SpaceRun(s);
    if k < |s| {
      assert !IsSpace(s[k]);
      assert Split(s) != [];
    } else {
      assert s[..k] == s;
    }
  }

  lemma {:induction false} SpaceRunAfterSpace(lead: string, s: string)
    requires AllSpace(lead)
    ensures SpaceRun(lead + s) == |lead| + SpaceRun(s)
    decreases |lead|
  {
    if lead != [] {
      assert (lead + s)[1..] == lead[1..] + s;
      SpaceRunAfterSpace(lead[1..], s);
    } else {
      assert lead + s == s;
    }
  }

  /** Leading whitespace does not change the result of `split()`. */
  lemma SplitSkipsLeadingSpace(lead: string, s: string)
    requires AllSpace(lead)
    ensures Split(lead + s) == Split(s)
  {
    SpaceRunAfterSpace(lead, s);
    assert (lead + s)[SpaceRun(lead + s)..] == s[SpaceRun(s)..];
  }

  lemma {:induction false} TokenRunOfToken(w: string, s: string)
    requires IsToken(w)
    requires s == [] || IsSpace(s[0])
    ensures TokenRun(w + s) == |w|
    decreases |w|
  {
    assert (w + s)[1..] == w[1..] + s;
    if |w| > 1 {
      TokenRunOfToken(w[1..], s);
    } else {
      assert w[1..] + s == s;
    }
  }

  /** A token followed by whitespace or the end of the string is split off whole. */
  lemma SplitToken(w: string, s: string)
    requires IsToken(w)
    requires s == [] || IsSpace(s[0])
    ensures Split(w + s) == [w] + Split(s)
  {
    TokenRunOfToken(w, s);
    assert SpaceRun(w + s) == 0;
    assert (w + s)[0..] == w + s;
    assert (w + s)[..|w|] == w;
    assert (w + s)[|w|..] == s;
  }

  lemma {:induction false} SplitJoinTrail(ws: seq<string>, sep: string, trail: string)
    requires forall i :: 0 <= i < |ws| ==> IsToken(ws[i])
    requires |sep| > 0 && AllSpace(sep) && AllSpace(trail)
    ensures Split(Join(ws, sep) + trail) == ws
    decreases |ws|
  {
    if |ws| == 0 {
      assert Join(ws, sep) + trail == trail;
      SplitEmptyIffBlank(trail);
    } else if |ws| == 1 {
      SplitToken(ws[0], trail);
      SplitEmptyIffBlank(trail);
    } else {
      var tail := Join(ws[1..], sep) + trail;
      AppendAssoc4(ws[0], sep, Join(ws[1..], sep), trail);
      SplitToken(ws[0], sep + tail);
      SplitSkipsLeadingSpace(sep, tail);
      SplitJoinTrail(ws[1..], sep, trail);
    }
  }

  /**
   * Round trip: joining tokens with a whitespace separator, with whitespace before and
   * after, and splitting again gives the tokens back.
   */
  lemma SplitJoin(ws: seq<string>, sep: string, lead: string, trail: string)
    requires forall i :: 0 <= i < |ws| ==> IsToken(ws[i])
    requires |sep| > 0 && AllSpace(sep)
    requires AllSpace(lead) && AllSpace(trail)
    ensures Split(lead + Join(ws, sep) + trail) == ws
  {
    var body := Join(ws, sep) + trail;
    AppendAssoc(lead, Join(ws, sep), trail);
    SplitSkipsLeadingSpace(lead, body);
    SplitJoinTrail(ws, sep, trail);
  }

  /** The round trip without surrounding whitespace. */
  lemma SplitOfJoin(ws: seq<string>, sep: string)
    requires forall i :: 0 <= i < |ws| ==> IsToken(ws[i])
    requires |sep| > 0 && AllSpace(sep)
    ensures Split(Join(ws, sep)) == ws
  {
    AppendEmpty(Join(ws, sep));
    SplitJoinTrail(ws, sep, "");
  }

  lemma AppendEmpty(s: string)
    ensures s + "" == s
  {
  }

  lemma AppendAssoc4(a: string, b: string, c: string, d: string)
    ensures a + b + c + d == a + (b + (c + d))
  {
  }

  lemma AppendAssoc(a: string, b: string, c: string)
    ensures a + b + c == a + (b + c)
  {
  }

  /** `split()` of a one-character string. */
  lemma SplitChar(c: char)
    ensures Split([c]) == if IsSpace(c) then [] else [[c]]
  {
    if !IsSpace(c) {
      SplitToken([c], []);
      assert [c] + [] == [c];
    }
  }
}
