/**
 The motion line the controller formats:
   "<prefix> X<x> Y<y> Z<z> A<a> B<b> C<c> F<feed>\r\n"
 with every number rendered by FixedPoint.Fixed2. The parser reads the
 seven labelled fields from the right-hand end, so the prefix may hold
 any text, spaces included.
 */
module GCode {
  import opened Wrappers
  import opened FixedPoint

  const CRLF: string := "\r\n"

  /** The contents of one motion line: prefix, six axes and the feed speed. */
  datatype Line = Line(prefix: string, x: int, y: int, z: int, a: int, b: int, c: int, feed: int)

  /** The field tags in the order they appear on the line. */
  const TAGS: string := "XYZABCF"

  /** The line's values in the order of TAGS. */
  function Values(l: Line): (vs: seq<int>)
    ensures |vs| == |TAGS|
  {
    [l.x, l.y, l.z, l.a, l.b, l.c, l.feed]
  }

  /** One labelled field: a space, the tag letter, the rendered value. */
  function Field(tag: char, v: int): string
  {
    [' ', tag] + Fixed2(v)
  }

  /** The fields for tags and values taken pairwise, in order. */
  function Fields(tags: string, vs: seq<int>): string
    requires |tags| == |vs|
  {
    if |tags| == 0 then ""
    else Fields(tags[..|tags| - 1], vs[..|vs| - 1]) + Field(tags[|tags| - 1], vs[|vs| - 1])
  }

  /** The line text: the prefix, the fields in the fixed order X Y Z A B C F, then CRLF. */
  function Render(l: Line): (s: string)
    ensures |s| >= 2 && s[|s| - 2..] == CRLF
  {
    l.prefix + Fields(TAGS, Values(l)) + CRLF
  }

  /** Spelled out, a rendered line is the prefix, the seven fields in TAGS order, and CRLF. */
  lemma RenderSpelled(l: Line)
    ensures Render(l) == l.prefix + (Field('X', l.x) + Field('Y', l.y) + Field('Z', l.z)
      + Field('A', l.a) + Field('B', l.b) + Field('C', l.c) + Field('F', l.feed)) + CRLF
  {
    var vs := Values(l);
    FieldsSeven(TAGS, vs);
    assert TAGS[0] == 'X' && TAGS[1] == 'Y' && TAGS[2] == 'Z' && TAGS[3] == 'A';
    assert TAGS[4] == 'B' && TAGS[5] == 'C' && TAGS[6] == 'F';
  }

  /** Seven fields, spelled out one by one. */
  lemma FieldsSeven(tags: string, vs: seq<int>)
    requires |tags| == 7 && |vs| == 7
    ensures Fields(tags, vs) == Field(tags[0], vs[0]) + Field(tags[1], vs[1]) + Field(tags[2], vs[2])
      + Field(tags[3], vs[3]) + Field(tags[4], vs[4]) + Field(tags[5], vs[5]) + Field(tags[6], vs[6])
  {
    var f0 := Fields(tags[..0], vs[..0]);
    assert f0 == "";
    var f1 := FieldsSnoc(tags, vs, 0, tags[0], vs[0]);
    var f2 := FieldsSnoc(tags, vs, 1, tags[1], vs[1]);
    var f3 := FieldsSnoc(tags, vs, 2, tags[2], vs[2]);
    var f4 := FieldsSnoc(tags, vs, 3, tags[3], vs[3]);
    var f5 := FieldsSnoc(tags, vs, 4, tags[4], vs[4]);
    var f6 := FieldsSnoc(tags, vs, 5, tags[5], vs[5]);
    var f7 := FieldsSnoc(tags, vs, 6, tags[6], vs[6]);
    AppendChain(f0, f1, f2, f3, f4, f5, f6, f7, Field(tags[0], vs[0]), Field(tags[1], vs[1]),
      Field(tags[2], vs[2]), Field(tags[3], vs[3]), Field(tags[4], vs[4]), Field(tags[5], vs[5]),
      Field(tags[6], vs[6]));
    FieldsWhole(tags, vs);
  }

  lemma FieldsWhole(tags: string, vs: seq<int>)
    requires |tags| == |vs|
    ensures Fields(tags[..|tags|], vs[..|vs|]) == Fields(tags, vs)
  {
    var t, w := tags[..|tags|], vs[..|vs|];
    assert t == tags && w == vs;
  }

  /** Seven successive appends to the empty string give the concatenation of the seven pieces. */
  lemma AppendChain(f0: string, f1: string, f2: string, f3: string, f4: string, f5: string,
                    f6: string, f7: string, a: string, b: string, c: string, d: string,
                    e: string, g: string, h: string)
    requires f0 == "" && f1 == f0 + a && f2 == f1 + b && f3 == f2 + c && f4 == f3 + d
    requires f5 == f4 + e && f6 == f5 + g && f7 == f6 + h
    ensures f7 == a + b + c + d + e + g + h
  {
    assert f1 == a;
  }

  /** Rendering one more tag appends that tag's field. */
  lemma FieldsSnoc(tags: string, vs: seq<int>, k: nat, tag: char, v: int) returns (f: string)
    requires |tags| == |vs| && k < |tags| && tags[k] == tag && vs[k] == v
    ensures f == Fields(tags[..k + 1], vs[..k + 1])
    ensures f == Fields(tags[..k], vs[..k]) + Field(tag, v)
  {
    assert tags[..k + 1][..k] == tags[..k];
    assert vs[..k + 1][..k] == vs[..k];
    f := Fields(tags[..k + 1], vs[..k + 1]);
  }

  /** The position of the last space in s, if there is one. */
  function LastSpace(s: string): (r: Option<nat>)
    ensures r.Some? ==> r.value < |s| && s[r.value] == ' '
    ensures r.Some? ==> forall j :: r.value < j < |s| ==> s[j] != ' '
    ensures r.None? ==> forall j :: 0 <= j < |s| ==> s[j] != ' '
  {
    if |s| == 0 then None
    else if s[|s| - 1] == ' ' then Some(|s| - 1)
    else LastSpace(s[..|s| - 1])
  }

  /**
   Splits the last field off body: the text after its last space must be
   the tag followed by a fixed-point numeral. Returns what is left of
   body and the value.
   */
  function SplitField(body: string, tag: char): (r: Option<(string, int)>)
    ensures r.Some? ==> |r.value.0| < |body| && body[..|r.value.0|] == r.value.0
  {
    var i :- LastSpace(body);
    var token := body[i + 1..];
    if |token| >= 1 && token[0] == tag then
      var v :- ParseFixed2(token[1..]);
      Some((body[..i], v))
    else None
  }

  /** Splits one field per tag off the end of body, last tag first. */
  function SplitFields(body: string, tags: string): (r: Option<(string, seq<int>)>)
    ensures r.Some? ==> |r.value.1| == |tags|
  {
    if |tags| == 0 then Some((body, []))
    else
      var last :- SplitField(body, tags[|tags| - 1]);
      var rest :- SplitFields(last.0, tags[..|tags| - 1]);
      Some((rest.0, rest.1 + [last.1]))
  }

  /** Reads a motion line back into its prefix and seven values. */
  function Parse(s: string): Option<Line>
  {
    if |s| < 2 || s[|s| - 2..] != CRLF then None
    else
      var split :- SplitFields(s[..|s| - 2], TAGS);
      var vs := split.1;
      Some(Line(split.0, vs[0], vs[1], vs[2], vs[3], vs[4], vs[5], vs[6]))
  }

  /** After its opening space, a field holds no space. */
  lemma FieldHasOneSpace(tag: char, v: int)
    requires tag != ' '
    ensures Field(tag, v)[0] == ' '
    ensures forall j :: 0 < j < |Field(tag, v)| ==> Field(tag, v)[j] != ' '
  {
    var fv := Fixed2(v);
    forall j | 0 < j < |Field(tag, v)|
      ensures Field(tag, v)[j] != ' '
    {
      if j > 1 {
        assert Field(tag, v)[j] == fv[j - 2];
      }
    }
  }

  /** In text ending with a rendered field, the last space is the one that opens the field. */
  lemma LastSpaceOfField(p: string, tag: char, v: int)
    requires tag != ' '
    ensures LastSpace(p + Field(tag, v)) == Some(|p|)
  {
    var f := Field(tag, v);
    var s := p + f;
    FieldHasOneSpace(tag, v);
    assert s[|p|] == ' ';
    forall j | |p| < j < |s|
      ensures s[j] != ' '
    {
      assert s[j] == f[j - |p|];
    }
    LastSpaceAt(s, |p|);
  }

  /** The last space is found wherever a space is followed only by other characters. */
  lemma {:induction false} LastSpaceAt(s: string, i: nat)
    requires i < |s| && s[i] == ' '
    requires forall j :: i < j < |s| ==> s[j] != ' '
    ensures LastSpace(s) == Some(i)
    decreases |s|
  {
    if i < |s| - 1 {
      assert s[|s| - 1] != ' ';
      LastSpaceAt(s[..|s| - 1], i);
    }
  }

  /** SplitField succeeds exactly as described once the last space and the token after it are known. */
  lemma SplitFieldAt(body: string, tag: char, i: nat, v: int)
    requires LastSpace(body) == Some(i)
    requires i < |body|
    requires |body[i + 1..]| >= 1 && body[i + 1..][0] == tag
    requires ParseFixed2(body[i + 1..][1..]) == Some(v)
    ensures SplitField(body, tag) == Some((body[..i], v))
  {
  }

  /** Splitting a rendered field off the end recovers the text before it and the value. */
  lemma SplitFieldRoundTrip(p: string, tag: char, v: int)
    requires tag != ' '
    ensures SplitField(p + Field(tag, v), tag) == Some((p, v))
  {
    var f := Field(tag, v);
    var s := p + f;
    LastSpaceOfField(p, tag, v);
    var token := s[|p| + 1..];
    assert token == f[1..];
    assert token[1..] == Fixed2(v);
    Fixed2RoundTrip(v);
    SplitFieldAt(s, tag, |p|, v);
    assert s[..|p|] == p;
  }

  /** Splitting rendered fields off the end recovers the text before them and every value. */
  lemma {:induction false} SplitFieldsRoundTrip(p: string, tags: string, vs: seq<int>)
    requires |tags| == |vs|
    requires forall i :: 0 <= i < |tags| ==> tags[i] != ' '
    ensures SplitFields(p + Fields(tags, vs), tags) == Some((p, vs))
    decreases |tags|
  {
    if |tags| > 0 {
      var tags', vs' := tags[..|tags| - 1], vs[..|vs| - 1];
      var t, v := tags[|tags| - 1], vs[|vs| - 1];
      var front := p + Fields(tags', vs');
      var whole := p + Fields(tags, vs);
      FieldsLast(p, tags, vs);
      SplitFieldRoundTrip(front, t, v);
      SplitFieldsRoundTrip(p, tags', vs');
      SplitFieldsStep(whole, tags, front, v, p, vs');
      DropLastThenAppend(vs);
    } else {
      assert p + Fields(tags, vs) == p && vs == [];
    }
  }

  /** After a prefix, the fields end with the last tag's field. */
  lemma FieldsLast(p: string, tags: string, vs: seq<int>)
    requires |tags| == |vs| > 0
    ensures p + Fields(tags, vs)
      == (p + Fields(tags[..|tags| - 1], vs[..|vs| - 1])) + Field(tags[|tags| - 1], vs[|vs| - 1])
  {
    var front := Fields(tags[..|tags| - 1], vs[..|vs| - 1]);
    var last := Field(tags[|tags| - 1], vs[|vs| - 1]);
    assert Fields(tags, vs) == front + last;
    Regroup(p, front, last);
  }

  lemma Regroup(a: string, b: string, c: string)
    ensures a + (b + c) == (a + b) + c
  {
  }

  /** One step of SplitFields: the last field, then the fields before it. */
  lemma SplitFieldsStep(body: string, tags: string, front: string, v: int, p: string, vs: seq<int>)
    requires |tags| > 0
    requires SplitField(body, tags[|tags| - 1]) == Some((front, v))
    requires SplitFields(front, tags[..|tags| - 1]) == Some((p, vs))
    ensures SplitFields(body, tags) == Some((p, vs + [v]))
  {
  }

  lemma DropLastThenAppend(vs: seq<int>)
    requires |vs| > 0
    ensures vs[..|vs| - 1] + [vs[|vs| - 1]] == vs
  {
  }

  /** Parsing a rendered line gives back exactly the line that was rendered. */
  lemma ParseRender(l: Line)
    ensures Parse(Render(l)) == Some(l)
  {
    var body := l.prefix + Fields(TAGS, Values(l));
    assert Render(l)[..|Render(l)| - 2] == body;
    SplitFieldsRoundTrip(l.prefix, TAGS, Values(l));
  }

  /** Two lines render to the same text only if they are the same line. */
  lemma RenderInjective(l: Line, m: Line)
    ensures Render(l) == Render(m) ==> l == m
  {
    ParseRender(l);
    ParseRender(m);
  }
}
