/** The HTML the program writes is plain concatenation: an element is an
    opening tag, its text and a closing tag, and nothing is escaped. This
    module names those shapes and reads them back. */
module Markup {
  import opened Wrappers

  function OpenTag(tag: string): string { "<" + tag + ">" }

  function CloseTag(tag: string): string { "</" + tag + ">" }

  /** `format!("<tag>{}</tag>", body)`. */
  function Element(tag: string, body: string): string
  {
    OpenTag(tag) + body + CloseTag(tag)
  }

  /** One element per body, in order, concatenated. */
  function Elements(tag: string, bodies: seq<string>): string
  {
    if bodies == [] then "" else Element(tag, bodies[0]) + Elements(tag, bodies[1..])
  }

  /** Appending an element at the end, as a `push_str` loop does. */
  lemma {:induction false} ElementsAppend(tag: string, bodies: seq<string>, body: string)
    ensures Elements(tag, bodies + [body]) == Elements(tag, bodies) + Element(tag, body)
  {
    if bodies == [] {
      assert bodies + [body] == [body];
      assert [body][1..] == [];
    } else {
      assert (bodies + [body])[1..] == bodies[1..] + [body];
      ElementsAppend(tag, bodies[1..], body);
    }
  }

  /** A text ending in elements, extended by one more element, still ends in
      elements. */
  lemma ElementsExtend(start: string, tag: string, bodies: seq<string>, body: string)
    ensures start + Elements(tag, bodies) + Element(tag, body) == start + Elements(tag, bodies + [body])
  {
    ElementsAppend(tag, bodies, body);
  }

  /** The elements of two lists are those of the first followed by those of
      the second. */
  lemma {:induction false} ElementsConcat(tag: string, xs: seq<string>, ys: seq<string>)
    ensures Elements(tag, xs + ys) == Elements(tag, xs) + Elements(tag, ys)
  {
    if xs == [] {
      assert xs + ys == ys;
    } else {
      assert (xs + ys)[0] == xs[0];
      assert (xs + ys)[1..] == xs[1..] + ys;
      ElementsConcat(tag, xs[1..], ys);
    }
  }

  /** Text with no markup in it. */
  predicate IsText(s: string) { '<' !in s }

  /** The length of the longest prefix of `s` that holds no `<`. */
  function TextLength(s: string): (k: nat)
    ensures k <= |s|
    ensures forall i :: 0 <= i < k ==> s[i] != '<'
    ensures k < |s| ==> s[k] == '<'
  {
    if s == [] || s[0] == '<' then 0 else 1 + TextLength(s[1..])
  }

  /** Reads a run of `<tag>text</tag>` elements back into their texts. */
  function ParseElements(tag: string, s: string): Option<seq<string>>
    decreases |s|
  {
    if s == [] then Some([])
    else
      var open := OpenTag(tag);
      var close := CloseTag(tag);
      if |s| < |open| || s[..|open|] != open then None
      else
        var rest := s[|open|..];
        var k := TextLength(rest);
        var after := rest[k..];
        if |after| < |close| || after[..|close|] != close then None
        else
          match ParseElements(tag, after[|close|..])
          case None => None
          case Some(more) => Some([rest[..k]] + more)
  }

  lemma TextLengthOf(t: string, x: string)
    requires IsText(t)
    requires x != [] && x[0] == '<'
    ensures TextLength(t + x) == |t|
  {
    assert (t + x)[|t|] == '<';
    assert forall i :: 0 <= i < |t| ==> (t + x)[i] == t[i];
  }

  /** Round trip: elements whose texts hold no markup read back as those
      texts, in order. */
  lemma {:induction false} ParseElementsRoundTrip(tag: string, bodies: seq<string>)
    requires forall i :: 0 <= i < |bodies| ==> IsText(bodies[i])
    ensures ParseElements(tag, Elements(tag, bodies)) == Some(bodies)
  {
    if bodies != [] {
      var open := OpenTag(tag);
      var close := CloseTag(tag);
      var body := bodies[0];
      var tail := Elements(tag, bodies[1..]);
      var s := Elements(tag, bodies);
      assert s == open + (body + (close + tail));
      assert s[..|open|] == open;
      var rest := s[|open|..];
      assert rest == body + (close + tail);
      assert IsText(body);
      TextLengthOf(body, close + tail);
      assert rest[..|body|] == body;
      var after := rest[|body|..];
      assert after == close + tail;
      assert after[..|close|] == close;
      assert after[|close|..] == tail;
      ParseElementsRoundTrip(tag, bodies[1..]);
      assert [body] + bodies[1..] == bodies;
    }
  }
}
