/** The two regular-expression passes of `download_lesson` over Markdown
    text, written as left-to-right scanners: the image-reference rewrite
    (`re.sub` with `!\[(.*?)\]\((.*?)\)`) and the PDF link search
    (`re.findall` with `\[.*?\]\((.*?\.pdf)\)`, case-insensitive). In both,
    `.` does not match a newline and both groups are lazy. */
module Markdown {
  import opened Text
  import opened Names

  /** Markdown text as the image pattern cuts it: a character outside every
      match, or one match with its alt-text and URL groups. */
  datatype Piece = Char(c: char) | ImageRef(alt: string, url: string)

  function Render(p: Piece): string
  {
    match p
    case Char(c) => [c]
    case ImageRef(alt, url) => "![" + alt + "](" + url + ")"
  }

  function RenderAll(ps: seq<Piece>): string
  {
    if ps == [] then [] else Render(ps[0]) + RenderAll(ps[1..])
  }

  predicate IsP(c: char) { c == 'p' || c == 'P' }
  predicate IsD(c: char) { c == 'd' || c == 'D' }
  predicate IsF(c: char) { c == 'f' || c == 'F' }

  /** `u` ends with `.pdf`, in any letter case. */
  predicate EndsPdf(u: string)
  {
    |u| >= 4 && u[|u| - 4] == '.' && IsP(u[|u| - 3]) && IsD(u[|u| - 2]) && IsF(u[|u| - 1])
  }

  /** The end of a lazily matched URL group that started at `start`: the
      first `)` at or after `j`, on the same line, whose group is accepted
      (for the PDF pattern, the group must end with `.pdf`). */
  function CloseParen(s: string, start: nat, j: nat, pdf: bool): (r: Option<nat>)
    requires start <= j <= |s|
    requires '\n' !in s[start..j]
    requires !pdf ==> ')' !in s[start..j]
    ensures r.Some? ==> j <= r.value < |s| && s[r.value] == ')' && '\n' !in s[start..r.value]
    ensures r.Some? && pdf ==> EndsPdf(s[start..r.value])
    ensures r.Some? && !pdf ==> ')' !in s[start..r.value]
    decreases |s| - j
  {
    if j >= |s| || s[j] == '\n' then None
    else if s[j] == ')' && (!pdf || EndsPdf(s[start..j])) then Some(j)
    else
      assert s[start..j + 1] == s[start..j] + [s[j]];
      CloseParen(s, start, j + 1, pdf)
  }

  /** `](` at `e`, then a URL group closed by the `)` at `p` on the same
      line and accepted by the pattern. */
  predicate LinkTail(s: string, e: nat, p: nat, pdf: bool)
  {
    && e + 2 <= p < |s| && s[e] == ']' && s[e + 1] == '(' && s[p] == ')'
    && '\n' !in s[e + 2..p]
    && (pdf ==> EndsPdf(s[e + 2..p]))
    && (!pdf ==> ')' !in s[e + 2..p])
  }

  /** The closing `)` of the URL group when the alt text ends at `e`. */
  function LinkAt(s: string, e: nat, pdf: bool): (r: Option<nat>)
    requires e <= |s|
    ensures r.Some? ==> LinkTail(s, e, r.value, pdf)
  {
    if e + 1 < |s| && s[e] == ']' && s[e + 1] == '(' then CloseParen(s, e + 2, e + 2, pdf) else None
  }

  /** The lazily matched alt-text group that started at `a`: the first `e`
      at or after `from`, on the same line, where `](` follows and a URL group
      can be closed. Gives the end of the alt text and the closing `)`. */
  function CloseBracket(s: string, a: nat, from: nat, pdf: bool): (r: Option<(nat, nat)>)
    requires a <= from <= |s|
    requires '\n' !in s[a..from]
    ensures r.Some? ==> from <= r.value.0 && LinkTail(s, r.value.0, r.value.1, pdf) && '\n' !in s[a..r.value.0]
    decreases |s| - from
  {
    if from >= |s| || s[from] == '\n' then None
    else match LinkAt(s, from, pdf)
      case Some(p) => Some((from, p))
      case None =>
        assert s[a..from + 1] == s[a..from] + [s[from]];
        CloseBracket(s, a, from + 1, pdf)
  }

  /** The image pattern matched at position `i`, if it does: the end of the
      alt text (where `](` stands) and the closing `)`. */
  function ImageMatchAt(s: string, i: nat): (r: Option<(nat, nat)>)
    requires i <= |s|
    ensures r.Some? ==> var (e, p) := r.value;
      && i + 2 <= e && e + 2 <= p < |s|
      && s[i] == '!' && s[i + 1] == '[' && s[e] == ']' && s[e + 1] == '(' && s[p] == ')'
      && '\n' !in s[i + 2..e] && '\n' !in s[e + 2..p] && ')' !in s[e + 2..p]
  {
    if i + 1 < |s| && s[i] == '!' && s[i + 1] == '[' then CloseBracket(s, i + 2, i + 2, false) else None
  }

  /** `!\[(.*?)\]\((.*?)\)` matches at `i`, with the alt-text group
      `s[i + 2..e]` and the URL group `s[e + 2..p]`: neither group spans a
      line. */
  predicate IsImageMatch(s: string, i: nat, e: nat, p: nat)
  {
    && i + 2 <= e && e + 2 <= p < |s|
    && s[i] == '!' && s[i + 1] == '[' && '\n' !in s[i + 2..e]
    && s[e] == ']' && s[e + 1] == '(' && '\n' !in s[e + 2..p] && s[p] == ')'
  }

  /** The match the regular-expression engine reports at `i`: both groups
      are lazy, so the shortest alt text that can be followed by a URL group
      wins, and then the shortest URL group. */
  ghost predicate FirstImageMatch(s: string, i: nat, e: nat, p: nat)
  {
    IsImageMatch(s, i, e, p) && forall e', p' :: IsImageMatch(s, i, e', p') ==> e < e' || (e == e' && p <= p')
  }

  /** The pattern cannot match at `i`. */
  ghost predicate NoImageMatchAt(s: string, i: nat)
  {
    forall e, p :: !IsImageMatch(s, i, e, p)
  }

  /** A `)` at `p` can close a URL group that started at `start`: the group
      stays on one line and, for the PDF pattern, ends with `.pdf`. */
  predicate Closes(s: string, start: nat, p: nat, pdf: bool)
  {
    start <= p < |s| && s[p] == ')' && '\n' !in s[start..p] && (pdf ==> EndsPdf(s[start..p]))
  }

  /** An alt-text group from `a` to `e` on one line, then `](`, then a URL
      group closed at `p`. */
  predicate Candidate(s: string, a: nat, e: nat, p: nat, pdf: bool)
  {
    a <= e && e + 1 < |s| && '\n' !in s[a..e] && s[e] == ']' && s[e + 1] == '(' && Closes(s, e + 2, p, pdf)
  }

  /** `CloseParen` gives the first `)` from `j` on that closes the group, and
      `None` exactly when there is none. */
  lemma {:induction false} CloseParenFirst(s: string, start: nat, j: nat, pdf: bool)
    requires start <= j <= |s|
    requires '\n' !in s[start..j]
    requires !pdf ==> ')' !in s[start..j]
    ensures CloseParen(s, start, j, pdf).Some? ==>
      && Closes(s, start, CloseParen(s, start, j, pdf).value, pdf)
      && forall q :: j <= q < CloseParen(s, start, j, pdf).value ==> !Closes(s, start, q, pdf)
    ensures CloseParen(s, start, j, pdf).None? ==> forall q :: j <= q ==> !Closes(s, start, q, pdf)
    decreases |s| - j
  {
    if j < |s| && s[j] == '\n' {
      forall q | j < q < |s|
        ensures '\n' in s[start..q]
      {
        assert s[start..q][j - start] == '\n';
      }
    } else if j < |s| && !(s[j] == ')' && (!pdf || EndsPdf(s[start..j]))) {
      assert s[start..j + 1] == s[start..j] + [s[j]];
      CloseParenFirst(s, start, j + 1, pdf);
    }
  }

  /** `CloseBracket` gives the first alt-text end from `from` on that can be
      followed by a URL group, with the first `)` closing that group, and
      `None` exactly when there is none. */
  lemma {:induction false} CloseBracketFirst(s: string, a: nat, from: nat, pdf: bool)
    requires a <= from <= |s|
    requires '\n' !in s[a..from]
    ensures CloseBracket(s, a, from, pdf).Some? ==> var (e, p) := CloseBracket(s, a, from, pdf).value;
      && Candidate(s, a, e, p, pdf)
      && forall e', p' :: from <= e' && Candidate(s, a, e', p', pdf) ==> e < e' || (e == e' && p <= p')
    ensures CloseBracket(s, a, from, pdf).None? ==> forall e', p' :: from <= e' ==> !Candidate(s, a, e', p', pdf)
    decreases |s| - from
  {
    if from < |s| && s[from] == '\n' {
      NewlineEndsAlt(s, a, from, pdf);
    } else if from < |s| {
      CandidatesAt(s, a, from, pdf);
      if LinkAt(s, from, pdf).None? {
        assert s[a..from + 1] == s[a..from] + [s[from]];
        CloseBracketFirst(s, a, from + 1, pdf);
      }
    }
  }

  /** No alt-text group crosses a newline. */
  lemma NewlineEndsAlt(s: string, a: nat, from: nat, pdf: bool)
    requires a <= from < |s| && s[from] == '\n'
    ensures forall e', p' :: from <= e' ==> !Candidate(s, a, e', p', pdf)
  {
    forall e' | from < e' <= |s|
      ensures '\n' in s[a..e']
    {
      assert s[a..e'][from - a] == '\n';
    }
  }

  /** The URL groups after an alt text ending at `e`: `LinkAt` gives the
      first, or `None` when there is none. */
  lemma CandidatesAt(s: string, a: nat, e: nat, pdf: bool)
    requires a <= e < |s| && '\n' !in s[a..e]
    ensures LinkAt(s, e, pdf).Some? ==>
      && Candidate(s, a, e, LinkAt(s, e, pdf).value, pdf)
      && forall p' :: Candidate(s, a, e, p', pdf) ==> LinkAt(s, e, pdf).value <= p'
    ensures LinkAt(s, e, pdf).None? ==> forall p' :: !Candidate(s, a, e, p', pdf)
  {
    if e + 1 < |s| && s[e] == ']' && s[e + 1] == '(' {
      CloseParenFirst(s, e + 2, e + 2, pdf);
    }
  }

  /** `ImageMatchAt` finds exactly the match the engine reports at `i`, and
      gives `None` exactly when the pattern cannot match there. */
  lemma ImageMatchAtExact(s: string, i: nat)
    requires i <= |s|
    ensures ImageMatchAt(s, i).Some? ==> FirstImageMatch(s, i, ImageMatchAt(s, i).value.0, ImageMatchAt(s, i).value.1)
    ensures ImageMatchAt(s, i).None? <==> NoImageMatchAt(s, i)
  {
    if i + 1 < |s| && s[i] == '!' && s[i + 1] == '[' {
      CloseBracketFirst(s, i + 2, i + 2, false);
      assert forall e, p :: IsImageMatch(s, i, e, p) <==> Candidate(s, i + 2, e, p, false);
      if ImageMatchAt(s, i).Some? {
        var (e, p) := ImageMatchAt(s, i).value;
        assert IsImageMatch(s, i, e, p);
      }
    }
  }

  /** The text from `i` to a closing `)` at `p`, with `](` at `e`, renders
      the reference it holds. */
  lemma RenderedAt(s: string, i: nat, e: nat, p: nat)
    requires i + 2 <= e && e + 2 <= p < |s|
    requires s[i] == '!' && s[i + 1] == '[' && s[e] == ']' && s[e + 1] == '(' && s[p] == ')'
    ensures s[i..p + 1] == Render(ImageRef(s[i + 2..e], s[e + 2..p]))
  {
    var alt, url := s[i + 2..e], s[e + 2..p];
    assert s[i..e] == "![" + alt by {
      SliceJoin(s, i, i + 2, e);
      assert s[i..i + 2] == "![";
    }
    assert s[i..e + 2] == "![" + alt + "](" by {
      SliceJoin(s, i, e, e + 2);
      assert s[e..e + 2] == "](";
    }
    assert s[i..p] == "![" + alt + "](" + url by {
      SliceJoin(s, i, e + 2, p);
    }
    assert s[i..p + 1] == "![" + alt + "](" + url + ")" by {
      SliceJoin(s, i, p, p + 1);
      assert s[p..p + 1] == ")";
    }
  }

  lemma SliceJoin(s: string, a: nat, b: nat, c: nat)
    requires a <= b <= c <= |s|
    ensures s[a..c] == s[a..b] + s[b..c]
  {
  }

  /** One step of `re.sub` at position `i`: the match there, or the single
      character when there is none, and where scanning resumes. */
  function StepAt(s: string, i: nat): (r: (Piece, nat))
    requires i < |s|
    ensures i < r.1 <= |s| && Render(r.0) == s[i..r.1]
    ensures r.0.ImageRef? ==> '\n' !in r.0.alt && '\n' !in r.0.url && ')' !in r.0.url
    ensures r.0.Char? <==> ImageMatchAt(s, i).None?
  {
    match ImageMatchAt(s, i)
    case Some((e, p)) =>
      RenderedAt(s, i, e, p);
      (ImageRef(s[i + 2..e], s[e + 2..p]), p + 1)
    case None =>
      assert s[i..i + 1] == [s[i]];
      (Char(s[i]), i + 1)
  }

  /** What `re.sub` sees of `s[i..]`: matches taken leftmost first,
      scanning resumes after each match. */
  function ScanFrom(s: string, i: nat): (ps: seq<Piece>)
    requires i <= |s|
    ensures i < |s| ==> |ps| >= 1
    decreases |s| - i
  {
    if i == |s| then [] else [StepAt(s, i).0] + ScanFrom(s, StepAt(s, i).1)
  }

  /** No group of a match spans a line, and no URL group holds a `)`. */
  lemma {:induction false} ScanFromOneLine(s: string, i: nat, k: nat)
    requires i <= |s| && k < |ScanFrom(s, i)| && ScanFrom(s, i)[k].ImageRef?
    ensures '\n' !in ScanFrom(s, i)[k].alt && '\n' !in ScanFrom(s, i)[k].url && ')' !in ScanFrom(s, i)[k].url
    decreases |s| - i
  {
    if k > 0 {
      ScanFromOneLine(s, StepAt(s, i).1, k - 1);
    }
  }

  function Scan(s: string): seq<Piece>
  {
    ScanFrom(s, 0)
  }

  /** The scanner loses and invents nothing: rendering the pieces gives the
      text back. */
  lemma {:induction false} ScanFromRender(s: string, i: nat)
    requires i <= |s|
    ensures RenderAll(ScanFrom(s, i)) == s[i..]
    decreases |s| - i
  {
    if i < |s| {
      var next := StepAt(s, i).1;
      ScanFromRender(s, next);
      RenderStep(s, i);
      SliceSplit(s, i, next);
    }
  }

  lemma SliceSplit(s: string, i: nat, j: nat)
    requires i <= j <= |s|
    ensures s[i..] == s[i..j] + s[j..]
  {
  }

  lemma RenderStep(s: string, i: nat)
    requires i < |s|
    ensures RenderAll(ScanFrom(s, i)) == Render(StepAt(s, i).0) + RenderAll(ScanFrom(s, StepAt(s, i).1))
  {
    var ps := ScanFrom(s, i);
    assert ps[0] == StepAt(s, i).0 && ps[1..] == ScanFrom(s, StepAt(s, i).1);
  }

  lemma ScanRender(s: string)
    ensures RenderAll(Scan(s)) == s
  {
    ScanFromRender(s, 0);
  }

  /** Characters outside every match, one piece each. */
  function Chars(t: string): seq<Piece>
  {
    seq(|t|, k requires 0 <= k < |t| => Char(t[k]))
  }

  /** Where the pattern cannot match, `re.sub` passes the text through one
      character at a time. */
  lemma {:induction false} ScanFromSkips(s: string, i: nat, j: nat)
    requires i <= j <= |s|
    requires forall k :: i <= k < j ==> NoImageMatchAt(s, k)
    ensures ScanFrom(s, i) == Chars(s[i..j]) + ScanFrom(s, j)
    decreases j - i
  {
    if i < j {
      calc {
        ScanFrom(s, i);
        { ScanFromChar(s, i); }
        [Char(s[i])] + ScanFrom(s, i + 1);
        { ScanFromSkips(s, i + 1, j); }
        [Char(s[i])] + (Chars(s[i + 1..j]) + ScanFrom(s, j));
        { CharsCons(s, i, j); }
        Chars(s[i..j]) + ScanFrom(s, j);
      }
    }
  }

  lemma ScanFromChar(s: string, i: nat)
    requires i < |s| && NoImageMatchAt(s, i)
    ensures ScanFrom(s, i) == [Char(s[i])] + ScanFrom(s, i + 1)
  {
    ImageMatchAtExact(s, i);
    assert StepAt(s, i) == (Char(s[i]), i + 1);
  }

  lemma CharsCons(s: string, i: nat, j: nat)
    requires i < j <= |s|
    ensures Chars(s[i..j]) == [Char(s[i])] + Chars(s[i + 1..j])
  {
    assert s[i..j][1..] == s[i + 1..j];
  }

  /** Where it matches, the match the engine reports is one piece, and
      scanning resumes after its `)`. */
  lemma ScanFromMatch(s: string, i: nat, e: nat, p: nat)
    requires i <= |s| && FirstImageMatch(s, i, e, p)
    ensures ScanFrom(s, i) == [ImageRef(s[i + 2..e], s[e + 2..p])] + ScanFrom(s, p + 1)
  {
    assert ImageMatchAt(s, i) == Some((e, p)) by {
      ImageMatchAtExact(s, i);
      FirstImageMatchUnique(s, i, e, p, ImageMatchAt(s, i).value.0, ImageMatchAt(s, i).value.1);
    }
    ScanFromAtMatch(s, i, e, p);
  }

  lemma ScanFromAtMatch(s: string, i: nat, e: nat, p: nat)
    requires i <= |s| && ImageMatchAt(s, i) == Some((e, p))
    ensures ScanFrom(s, i) == [ImageRef(s[i + 2..e], s[e + 2..p])] + ScanFrom(s, p + 1)
  {
    var step := StepAt(s, i);
    assert step == (ImageRef(s[i + 2..e], s[e + 2..p]), p + 1);
    assert ScanFrom(s, i) == [step.0] + ScanFrom(s, step.1);
  }

  lemma FirstImageMatchUnique(s: string, i: nat, e: nat, p: nat, e0: nat, p0: nat)
    requires FirstImageMatch(s, i, e, p) && FirstImageMatch(s, i, e0, p0)
    ensures e == e0 && p == p0
  {
  }

  lemma SliceAt(s: string, a: nat, t: string)
    requires a + |t| <= |s| && s[a..a + |t|] == t
    ensures forall k :: a <= k < a + |t| ==> s[k] == t[k - a]
  {
    forall k | a <= k < a + |t|
      ensures s[k] == t[k - a]
    {
      assert s[a..a + |t|][k - a] == s[k];
    }
  }

  /** The characters of a rendered image reference. */
  lemma RenderIndex(alt: string, url: string)
    ensures var r := Render(ImageRef(alt, url));
      && |r| == |alt| + |url| + 5
      && r[0] == '!' && r[1] == '[' && r[|alt| + 2] == ']' && r[|alt| + 3] == '(' && r[|r| - 1] == ')'
      && (forall k :: 2 <= k < |alt| + 2 ==> r[k] == alt[k - 2])
      && (forall k :: |alt| + 4 <= k < |alt| + |url| + 4 ==> r[k] == url[k - |alt| - 4])
  {
  }

  lemma NotInSlice(s: string, a: nat, b: nat, c: char)
    requires a <= b <= |s|
    requires forall k :: a <= k < b ==> s[k] != c
    ensures c !in s[a..b]
  {
  }

  /** A reference whose alt text has no `]` and whose URL has no `)`
      (neither with a newline) is the match the engine reports where it
      starts. */
  lemma ReferenceIsFirst(s: string, i: nat, alt: string, url: string)
    requires ']' !in alt && '\n' !in alt && ')' !in url && '\n' !in url
    requires i + |alt| + |url| + 5 <= |s| && s[i..i + |alt| + |url| + 5] == Render(ImageRef(alt, url))
    ensures var e := i + |alt| + 2;
      && FirstImageMatch(s, i, e, e + |url| + 2)
      && s[i + 2..e] == alt && s[e + 2..e + |url| + 2] == url
  {
    var r := Render(ImageRef(alt, url));
    var e, p := i + |alt| + 2, i + |alt| + |url| + 4;
    RenderIndex(alt, url);
    SliceAt(s, i, r);
    assert forall k :: i + 2 <= k < e ==> s[k] == alt[k - i - 2] by {
      assert forall k :: i + 2 <= k < e ==> s[k] == r[k - i] && r[k - i] == alt[k - i - 2];
    }
    assert forall k :: e + 2 <= k < p ==> s[k] == url[k - e - 2] by {
      assert forall k :: e + 2 <= k < p ==> s[k] == r[k - i] && r[k - i] == url[k - e - 2];
    }
    NotInSlice(s, i + 2, e, '\n');
    NotInSlice(s, e + 2, p, '\n');
    assert IsImageMatch(s, i, e, p);
    forall e': nat, p': nat | IsImageMatch(s, i, e', p')
      ensures e < e' || (e == e' && p <= p')
    {
      assert forall k :: i + 2 <= k < e ==> s[k] != ']';
      assert forall k :: e + 2 <= k < p ==> s[k] != ')';
    }
  }

  /** The reference at `i` is the match the engine reports there. */
  lemma ReferenceMatched(s: string, i: nat, alt: string, url: string)
    requires ']' !in alt && '\n' !in alt && ')' !in url && '\n' !in url
    requires i + |alt| + |url| + 5 <= |s| && s[i..i + |alt| + |url| + 5] == Render(ImageRef(alt, url))
    ensures ImageMatchAt(s, i) == Some((i + |alt| + 2, i + |alt| + |url| + 4))
    ensures s[i + 2..i + |alt| + 2] == alt && s[i + |alt| + 4..i + |alt| + |url| + 4] == url
  {
    var e, p := i + |alt| + 2, i + |alt| + |url| + 4;
    ReferenceIsFirst(s, i, alt, url);
    ImageMatchAtExact(s, i);
    FirstImageMatchUnique(s, i, e, p, ImageMatchAt(s, i).value.0, ImageMatchAt(s, i).value.1);
  }

  /** A reference at `i` is one piece, and scanning goes on after it. */
  lemma ScanAtReference(s: string, i: nat, alt: string, url: string)
    requires ']' !in alt && '\n' !in alt && ')' !in url && '\n' !in url
    requires i + |alt| + |url| + 5 <= |s| && s[i..i + |alt| + |url| + 5] == Render(ImageRef(alt, url))
    ensures ScanFrom(s, i) == [ImageRef(alt, url)] + ScanFrom(s, i + |alt| + |url| + 5)
  {
    var e, p := i + |alt| + 2, i + |alt| + |url| + 4;
    var rest := ScanFrom(s, p + 1);
    assert ImageMatchAt(s, i) == Some((e, p)) && s[i + 2..e] == alt && s[e + 2..p] == url by {
      ReferenceMatched(s, i, alt, url);
    }
    ScanFromAtMatch(s, i, e, p);
  }

  /** An image reference at position `i` of a text, whose alt text has no
      `]` and whose URL has no `)` (neither with a newline), is found: the
      text before it passes through when no match starts there, the
      reference is one piece, and scanning goes on after it. */
  lemma ScanFindsReference(s: string, i: nat, alt: string, url: string)
    requires ']' !in alt && '\n' !in alt && ')' !in url && '\n' !in url
    requires i + |alt| + |url| + 5 <= |s| && s[i..i + |alt| + |url| + 5] == Render(ImageRef(alt, url))
    requires forall k :: 0 <= k < i ==> NoImageMatchAt(s, k)
    ensures Scan(s) == Chars(s[..i]) + [ImageRef(alt, url)] + ScanFrom(s, i + |alt| + |url| + 5)
  {
    var rest := ScanFrom(s, i + |alt| + |url| + 5);
    assert Scan(s) == Chars(s[..i]) + ScanFrom(s, i) by {
      ScanFromSkips(s, 0, i);
      assert s[0..i] == s[..i];
    }
    assert ScanFrom(s, i) == [ImageRef(alt, url)] + rest by {
      ScanAtReference(s, i, alt, url);
    }
    AppendAssoc(Chars(s[..i]), [ImageRef(alt, url)], rest);
  }

  lemma AppendAssoc<T>(a: seq<T>, b: seq<T>, c: seq<T>)
    ensures a + (b + c) == a + b + c
  {
  }

  /** `u.replace('\\' + c, c)`: left to right, non-overlapping. */
  function Unbackslash(u: string, c: char): (r: string)
    ensures |r| <= |u|
    ensures '\\' !in u ==> r == u
  {
    if |u| >= 2 && u[0] == '\\' && u[1] == c then [c] + Unbackslash(u[2..], c)
    else if u == [] then []
    else [u[0]] + Unbackslash(u[1..], c)
  }

  /** Undoing the escapes the HTML-to-Markdown converter may put into a URL:
      `\_` and then `\*`. */
  function Unescape(u: string): string
  {
    Unbackslash(Unbackslash(u, '_'), '*')
  }

  /** A backslash before every `_` and every `*`, as the converter escapes
      them. */
  function EscapeMarkdown(u: string): string
  {
    if u == [] then []
    else if u[0] == '_' || u[0] == '*' then ['\\', u[0]] + EscapeMarkdown(u[1..])
    else [u[0]] + EscapeMarkdown(u[1..])
  }

  function EscapeStars(u: string): string
  {
    if u == [] then []
    else if u[0] == '*' then ['\\', '*'] + EscapeStars(u[1..])
    else [u[0]] + EscapeStars(u[1..])
  }

  lemma {:induction false} UnbackslashUnderscores(u: string)
    requires '\\' !in u
    ensures Unbackslash(EscapeMarkdown(u), '_') == EscapeStars(u)
  {
    if u != [] {
      UnbackslashUnderscores(u[1..]);
      if u[0] == '_' || u[0] == '*' {
        assert EscapeMarkdown(u)[2..] == EscapeMarkdown(u[1..]);
        if u[0] == '*' {
          var m := EscapeMarkdown(u);
          assert Unbackslash(m, '_') == [m[0]] + Unbackslash(m[1..], '_');
          assert m[1..] == ['*'] + EscapeMarkdown(u[1..]);
          assert m[1..][1..] == EscapeMarkdown(u[1..]);
        }
      } else {
        assert EscapeMarkdown(u)[1..] == EscapeMarkdown(u[1..]);
      }
    }
  }

  lemma {:induction false} UnbackslashStars(u: string)
    requires '\\' !in u
    ensures Unbackslash(EscapeStars(u), '*') == u
  {
    if u != [] {
      UnbackslashStars(u[1..]);
      if u[0] == '*' {
        assert EscapeStars(u)[2..] == EscapeStars(u[1..]);
      } else {
        assert EscapeStars(u)[1..] == EscapeStars(u[1..]);
      }
    }
  }

  /** Unescaping recovers a URL (without backslashes of its own) from the
      converter's escaped form. */
  lemma UnescapeRecoversUrl(u: string)
    requires '\\' !in u
    ensures Unescape(EscapeMarkdown(u)) == u
  {
    UnbackslashUnderscores(u);
    UnbackslashStars(u);
  }

  /** The URL an image reference is fetched from, or `None` when the match is
      to be left as it is: a URL that neither starts with `http` nor with `/`
      nor contains `://` is joined to the site's base URL (`join` stands for
      `urljoin(BASE_URL, .)`); a result that does not start with `http` is
      not fetched. */
  function Resolve(url: string, join: string -> string): (r: Option<string>)
    ensures r.Some? ==> StartsWith(r.value, "http")
    ensures StartsWith(Unescape(url), "http") ==> r == Some(Unescape(url))
    ensures StartsWith(Unescape(url), "/") ==> r.None?
    ensures !StartsWith(Unescape(url), "http") && Contains(Unescape(url), "://") ==> r.None?
    ensures var clean := Unescape(url);
      !StartsWith(clean, "http") && !StartsWith(clean, "/") && !Contains(clean, "://") ==>
        (r.Some? <==> StartsWith(join(clean), "http")) && (r.Some? ==> r.value == join(clean))
  {
    var clean := Unescape(url);
    var joined :=
      if !StartsWith(clean, "http") && !StartsWith(clean, "/") && !Contains(clean, "://")
      then join(clean) else clean;
    if StartsWith(joined, "http") then Some(joined) else None
  }

  /** What `replace_image` returns for one piece; `name` is the local name
      given to a fetched image (`ImageName` in the downloader). */
  function Localize(p: Piece, join: string -> string, name: string -> string): (q: Piece)
    ensures p.Char? ==> q == p
    ensures p.ImageRef? ==> q.ImageRef? && q.alt == p.alt
    ensures p.ImageRef? && Resolve(p.url, join).None? ==> q == p
    ensures p.ImageRef? && Resolve(p.url, join).Some? ==> q.url == name(Resolve(p.url, join).value)
  {
    match p
    case Char(_) => p
    case ImageRef(alt, url) =>
      match Resolve(url, join)
      case None => p
      case Some(v) => ImageRef(alt, name(v))
  }

  function LocalizeAll(ps: seq<Piece>, join: string -> string, name: string -> string): (qs: seq<Piece>)
    ensures |qs| == |ps|
    ensures forall k :: 0 <= k < |ps| ==> qs[k] == Localize(ps[k], join, name)
  {
    if ps == [] then [] else [Localize(ps[0], join, name)] + LocalizeAll(ps[1..], join, name)
  }

  /** `md_image_pattern.sub(replace_image, text)`. */
  function Rewrite(text: string, join: string -> string, name: string -> string): string
  {
    RenderAll(LocalizeAll(Scan(text), join, name))
  }

  /** The downloads `replace_image` asks for, in text order: the resolved URL
      and the local name, for every match that resolves. */
  function ImageFetches(ps: seq<Piece>, join: string -> string, name: string -> string): (r: seq<(string, string)>)
    ensures |r| <= |ps|
    ensures forall k :: 0 <= k < |r| ==> StartsWith(r[k].0, "http") && r[k].1 == name(r[k].0)
  {
    if ps == [] then []
    else
      var rest := ImageFetches(ps[1..], join, name);
      match ps[0]
      case Char(_) => rest
      case ImageRef(_, url) =>
        match Resolve(url, join)
        case None => rest
        case Some(v) => [(v, name(v))] + rest
  }

  lemma {:induction false} LocalizeAllUnchanged(ps: seq<Piece>, join: string -> string, name: string -> string)
    requires forall k :: 0 <= k < |ps| ==> ps[k].Char? || Resolve(ps[k].url, join).None?
    ensures LocalizeAll(ps, join, name) == ps
    ensures ImageFetches(ps, join, name) == []
  {
    if ps != [] {
      LocalizeAllUnchanged(ps[1..], join, name);
    }
  }

  /** Text in which no image reference resolves (none at all, or only
      root-relative and other non-`http` ones) comes out byte for byte the
      same, and nothing is fetched. */
  lemma RewriteUnchanged(text: string, join: string -> string, name: string -> string)
    requires forall k :: 0 <= k < |Scan(text)| ==> Scan(text)[k].Char? || Resolve(Scan(text)[k].url, join).None?
    ensures Rewrite(text, join, name) == text
    ensures ImageFetches(Scan(text), join, name) == []
  {
    LocalizeAllUnchanged(Scan(text), join, name);
    ScanRender(text);
  }

  lemma {:induction false} RenderAllAppend(a: seq<Piece>, b: seq<Piece>)
    ensures RenderAll(a + b) == RenderAll(a) + RenderAll(b)
  {
    if a != [] {
      assert (a + b)[0] == a[0] && (a + b)[1..] == a[1..] + b;
      RenderAllAppend(a[1..], b);
    } else {
      assert a + b == b;
    }
  }

  lemma {:induction false} LocalizeAllAppend(a: seq<Piece>, b: seq<Piece>, join: string -> string, name: string -> string)
    ensures LocalizeAll(a + b, join, name) == LocalizeAll(a, join, name) + LocalizeAll(b, join, name)
  {
  }

  /** The downloads of consecutive parts of the text are the downloads of
      each part, in order. */
  lemma {:induction false} ImageFetchesAppend(a: seq<Piece>, b: seq<Piece>, join: string -> string, name: string -> string)
    ensures ImageFetches(a + b, join, name) == ImageFetches(a, join, name) + ImageFetches(b, join, name)
  {
    if a != [] {
      assert (a + b)[0] == a[0] && (a + b)[1..] == a[1..] + b;
      ImageFetchesAppend(a[1..], b, join, name);
    } else {
      assert a + b == b;
    }
  }

  /** One piece asks for one download when it is a reference whose URL
      resolves, and for none otherwise. */
  lemma ImageFetchesPiece(p: Piece, join: string -> string, name: string -> string)
    ensures p.ImageRef? && Resolve(p.url, join).Some? ==>
      ImageFetches([p], join, name) == [(Resolve(p.url, join).value, name(Resolve(p.url, join).value))]
    ensures p.Char? || Resolve(p.url, join).None? ==> ImageFetches([p], join, name) == []
  {
    assert [p][1..] == [];
  }

  lemma {:induction false} CharsRender(t: string)
    ensures RenderAll(Chars(t)) == t
  {
    if t != [] {
      assert Chars(t)[1..] == Chars(t[1..]);
      CharsRender(t[1..]);
    }
  }

  /** Text before a resolving reference is kept, the reference gets the
      image's local name, and the rest is rewritten on its own. */
  lemma RewritePieces(pre: string, ref: Piece, rest: seq<Piece>, join: string -> string, name: string -> string)
    requires ref.ImageRef? && Resolve(ref.url, join).Some?
    ensures RenderAll(LocalizeAll(Chars(pre) + [ref] + rest, join, name))
      == pre + Render(ImageRef(ref.alt, name(Resolve(ref.url, join).value))) + RenderAll(LocalizeAll(rest, join, name))
  {
    var q := ImageRef(ref.alt, name(Resolve(ref.url, join).value));
    var cs := Chars(pre);
    assert LocalizeAll(cs, join, name) == cs by {
      LocalizeAllUnchanged(cs, join, name);
    }
    assert LocalizeAll([ref], join, name) == [q];
    calc {
      RenderAll(LocalizeAll(cs + [ref] + rest, join, name));
      { LocalizeAllAppend(cs + [ref], rest, join, name); LocalizeAllAppend(cs, [ref], join, name); }
      RenderAll(cs + [q] + LocalizeAll(rest, join, name));
      { RenderAllAppend(cs + [q], LocalizeAll(rest, join, name)); RenderAllAppend(cs, [q]); }
      RenderAll(cs) + RenderAll([q]) + RenderAll(LocalizeAll(rest, join, name));
      { CharsRender(pre); assert RenderAll([q]) == Render(q); }
      pre + Render(q) + RenderAll(LocalizeAll(rest, join, name));
    }
  }

  /** Text before a resolving reference asks for nothing; the reference
      asks for its image first. */
  lemma FetchPieces(pre: string, ref: Piece, rest: seq<Piece>, join: string -> string, name: string -> string)
    requires ref.ImageRef? && Resolve(ref.url, join).Some?
    ensures var v := Resolve(ref.url, join).value;
      ImageFetches(Chars(pre) + [ref] + rest, join, name) == [(v, name(v))] + ImageFetches(rest, join, name)
  {
    var v := Resolve(ref.url, join).value;
    var cs, one := Chars(pre), [ref];
    var head := cs + one;
    assert ImageFetches(cs, join, name) == [] by {
      LocalizeAllUnchanged(cs, join, name);
    }
    assert ImageFetches(one, join, name) == [(v, name(v))] by {
      ImageFetchesPiece(ref, join, name);
    }
    assert ImageFetches(head, join, name) == [(v, name(v))] by {
      ImageFetchesAppend(cs, one, join, name);
    }
    ImageFetchesAppend(head, rest, join, name);
  }

  /** A reference found at `i` whose URL resolves is rewritten to its alt
      text and the image's local name, and the text before it is kept. */
  lemma RewriteFindsReference(s: string, i: nat, alt: string, url: string, join: string -> string, name: string -> string)
    requires ']' !in alt && '\n' !in alt && ')' !in url && '\n' !in url
    requires i + |alt| + |url| + 5 <= |s| && s[i..i + |alt| + |url| + 5] == Render(ImageRef(alt, url))
    requires forall k :: 0 <= k < i ==> NoImageMatchAt(s, k)
    requires Resolve(url, join).Some?
    ensures Rewrite(s, join, name)
      == s[..i] + Render(ImageRef(alt, name(Resolve(url, join).value)))
        + RenderAll(LocalizeAll(ScanFrom(s, i + |alt| + |url| + 5), join, name))
  {
    var rest := ScanFrom(s, i + |alt| + |url| + 5);
    ScanFindsReference(s, i, alt, url);
    RewritePieces(s[..i], ImageRef(alt, url), rest, join, name);
  }

  /** And its image is the first download. */
  lemma FetchesFindReference(s: string, i: nat, alt: string, url: string, join: string -> string, name: string -> string)
    requires ']' !in alt && '\n' !in alt && ')' !in url && '\n' !in url
    requires i + |alt| + |url| + 5 <= |s| && s[i..i + |alt| + |url| + 5] == Render(ImageRef(alt, url))
    requires forall k :: 0 <= k < i ==> NoImageMatchAt(s, k)
    requires Resolve(url, join).Some?
    ensures var v := Resolve(url, join).value;
      ImageFetches(Scan(s), join, name) == [(v, name(v))] + ImageFetches(ScanFrom(s, i + |alt| + |url| + 5), join, name)
  {
    var rest := ScanFrom(s, i + |alt| + |url| + 5);
    ScanFindsReference(s, i, alt, url);
    FetchPieces(s[..i], ImageRef(alt, url), rest, join, name);
  }

  /** `\[.*?\]\((.*?\.pdf)\)` found at position `i`, if it is. */
  function PdfMatchAt(s: string, i: nat): (r: Option<(nat, nat)>)
    requires i <= |s|
    ensures r.Some? ==> var (e, p) := r.value;
      && i + 1 <= e && e + 2 <= p < |s| && EndsPdf(s[e + 2..p]) && '\n' !in s[e + 2..p]
  {
    if i < |s| && s[i] == '[' then CloseBracket(s, i + 1, i + 1, true) else None
  }

  /** `md_pdf_pattern.findall(s[i..])`: the URL groups, leftmost first. */
  function PdfLinksFrom(s: string, i: nat): (urls: seq<string>)
    requires i <= |s|
    ensures forall k :: 0 <= k < |urls| ==> EndsPdf(urls[k]) && '\n' !in urls[k]
    decreases |s| - i
  {
    if i == |s| then []
    else match PdfMatchAt(s, i)
      case Some((e, p)) => [s[e + 2..p]] + PdfLinksFrom(s, p + 1)
      case None => PdfLinksFrom(s, i + 1)
  }

  function PdfLinks(s: string): seq<string>
  {
    PdfLinksFrom(s, 0)
  }

  /** `\[.*?\]\((.*?\.pdf)\)` (ignoring case) matches at `i`, with the
      link text `s[i + 1..e]` and the URL group `s[e + 2..p]`: neither spans
      a line, and the URL group ends with `.pdf`. */
  predicate IsPdfMatch(s: string, i: nat, e: nat, p: nat)
  {
    && i + 1 <= e && e + 2 <= p < |s|
    && s[i] == '[' && '\n' !in s[i + 1..e]
    && s[e] == ']' && s[e + 1] == '(' && '\n' !in s[e + 2..p] && EndsPdf(s[e + 2..p]) && s[p] == ')'
  }

  /** The match the engine reports at `i`: the shortest link text, then
      the shortest URL group. */
  ghost predicate FirstPdfMatch(s: string, i: nat, e: nat, p: nat)
  {
    IsPdfMatch(s, i, e, p) && forall e', p' :: IsPdfMatch(s, i, e', p') ==> e < e' || (e == e' && p <= p')
  }

  ghost predicate NoPdfMatchAt(s: string, i: nat)
  {
    forall e, p :: !IsPdfMatch(s, i, e, p)
  }

  /** `PdfMatchAt` finds exactly the match the engine reports at `i`, and
      gives `None` exactly when the pattern cannot match there. */
  lemma PdfMatchAtExact(s: string, i: nat)
    requires i <= |s|
    ensures PdfMatchAt(s, i).Some? ==> FirstPdfMatch(s, i, PdfMatchAt(s, i).value.0, PdfMatchAt(s, i).value.1)
    ensures PdfMatchAt(s, i).None? <==> NoPdfMatchAt(s, i)
  {
    if i < |s| && s[i] == '[' {
      CloseBracketFirst(s, i + 1, i + 1, true);
      assert forall e, p :: IsPdfMatch(s, i, e, p) <==> Candidate(s, i + 1, e, p, true);
      if PdfMatchAt(s, i).Some? {
        var (e, p) := PdfMatchAt(s, i).value;
        assert IsPdfMatch(s, i, e, p);
      }
    }
  }

  /** `findall` moves on one character where the pattern cannot match. */
  lemma {:induction false} PdfLinksSkips(s: string, i: nat, j: nat)
    requires i <= j <= |s|
    requires forall k :: i <= k < j ==> NoPdfMatchAt(s, k)
    ensures PdfLinksFrom(s, i) == PdfLinksFrom(s, j)
    decreases j - i
  {
    if i < j {
      PdfMatchAtExact(s, i);
      PdfLinksSkips(s, i + 1, j);
    }
  }

  /** Text in which the pattern matches nowhere has no PDF links. */
  lemma PdfLinksNone(s: string)
    requires forall k :: 0 <= k < |s| ==> NoPdfMatchAt(s, k)
    ensures PdfLinks(s) == []
  {
    PdfLinksSkips(s, 0, |s|);
  }

  /** Where it matches, the URL group of the match the engine reports is
      listed, and the search resumes after its `)`. */
  lemma PdfLinksMatch(s: string, i: nat, e: nat, p: nat)
    requires i <= |s| && FirstPdfMatch(s, i, e, p)
    ensures PdfLinksFrom(s, i) == [s[e + 2..p]] + PdfLinksFrom(s, p + 1)
  {
    assert PdfMatchAt(s, i) == Some((e, p)) by {
      PdfMatchAtExact(s, i);
      FirstPdfMatchUnique(s, i, e, p, PdfMatchAt(s, i).value.0, PdfMatchAt(s, i).value.1);
    }
    PdfLinksAtMatch(s, i, e, p);
  }

  lemma PdfLinksAtMatch(s: string, i: nat, e: nat, p: nat)
    requires i <= |s| && PdfMatchAt(s, i) == Some((e, p))
    ensures PdfLinksFrom(s, i) == [s[e + 2..p]] + PdfLinksFrom(s, p + 1)
  {
    assert i < |s|;
  }

  lemma FirstPdfMatchUnique(s: string, i: nat, e: nat, p: nat, e0: nat, p0: nat)
    requires FirstPdfMatch(s, i, e, p) && FirstPdfMatch(s, i, e0, p0)
    ensures e == e0 && p == p0
  {
  }

  /** The Markdown link `[text](url)`. */
  function LinkText(text: string, url: string): string
  {
    "[" + text + "](" + url + ")"
  }

  lemma LinkIndex(text: string, url: string)
    ensures var r := LinkText(text, url);
      && |r| == |text| + |url| + 4
      && r[0] == '[' && r[|text| + 1] == ']' && r[|text| + 2] == '(' && r[|r| - 1] == ')'
      && (forall k :: 1 <= k < |text| + 1 ==> r[k] == text[k - 1])
      && (forall k :: |text| + 3 <= k < |text| + |url| + 3 ==> r[k] == url[k - |text| - 3])
  {
  }

  /** The characters of a link placed at `i`. */
  lemma LinkChars(s: string, i: nat, text: string, url: string)
    requires i + |text| + |url| + 4 <= |s| && s[i..i + |text| + |url| + 4] == LinkText(text, url)
    ensures var e := i + |text| + 1;
      && s[i] == '[' && s[e] == ']' && s[e + 1] == '(' && s[e + |url| + 2] == ')'
      && (forall k :: i + 1 <= k < e ==> s[k] == text[k - i - 1])
      && (forall k :: e + 2 <= k < e + |url| + 2 ==> s[k] == url[k - e - 2])
  {
    var r := LinkText(text, url);
    var e := i + |text| + 1;
    LinkIndex(text, url);
    SliceAt(s, i, r);
    assert forall k :: i + 1 <= k < e ==> s[k] == r[k - i] && r[k - i] == text[k - i - 1];
    assert forall k :: e + 2 <= k < e + |url| + 2 ==> s[k] == r[k - i] && r[k - i] == url[k - e - 2];
  }

  /** A link to a `.pdf` URL whose text has no `]` and whose URL has no `)`
      (neither with a newline) is the match the engine reports where it
      starts. */
  lemma LinkIsFirst(s: string, i: nat, text: string, url: string)
    requires ']' !in text && '\n' !in text && ')' !in url && '\n' !in url && EndsPdf(url)
    requires i + |text| + |url| + 4 <= |s| && s[i..i + |text| + |url| + 4] == LinkText(text, url)
    ensures var e := i + |text| + 1;
      FirstPdfMatch(s, i, e, e + |url| + 2) && s[e + 2..e + |url| + 2] == url
  {
    var e, p := i + |text| + 1, i + |text| + |url| + 3;
    LinkChars(s, i, text, url);
    assert s[e + 2..p] == url;
    NotInSlice(s, i + 1, e, '\n');
    assert IsPdfMatch(s, i, e, p);
    forall e': nat, p': nat | IsPdfMatch(s, i, e', p')
      ensures e < e' || (e == e' && p <= p')
    {
      assert forall k :: i + 1 <= k < e ==> s[k] != ']';
      assert forall k :: e + 2 <= k < p ==> s[k] != ')';
    }
  }

  /** The link at `i` is the match the engine reports there. */
  lemma LinkMatched(s: string, i: nat, text: string, url: string)
    requires ']' !in text && '\n' !in text && ')' !in url && '\n' !in url && EndsPdf(url)
    requires i + |text| + |url| + 4 <= |s| && s[i..i + |text| + |url| + 4] == LinkText(text, url)
    ensures PdfMatchAt(s, i) == Some((i + |text| + 1, i + |text| + |url| + 3))
    ensures s[i + |text| + 3..i + |text| + |url| + 3] == url
  {
    var e, p := i + |text| + 1, i + |text| + |url| + 3;
    LinkIsFirst(s, i, text, url);
    PdfMatchAtExact(s, i);
    FirstPdfMatchUnique(s, i, e, p, PdfMatchAt(s, i).value.0, PdfMatchAt(s, i).value.1);
  }

  lemma PdfLinksAtLink(s: string, i: nat, text: string, url: string)
    requires ']' !in text && '\n' !in text && ')' !in url && '\n' !in url && EndsPdf(url)
    requires i + |text| + |url| + 4 <= |s| && s[i..i + |text| + |url| + 4] == LinkText(text, url)
    ensures PdfLinksFrom(s, i) == [url] + PdfLinksFrom(s, i + |text| + |url| + 4)
  {
    var e, p := i + |text| + 1, i + |text| + |url| + 3;
    var rest := PdfLinksFrom(s, p + 1);
    assert PdfMatchAt(s, i) == Some((e, p)) && s[e + 2..p] == url by {
      LinkMatched(s, i, text, url);
    }
    PdfLinksAtMatch(s, i, e, p);
  }

  /** A PDF link at position `i` of a text, whose text has no `]` and whose
      URL has no `)` (neither with a newline), is found: its URL is the
      first one listed when no match starts before it, and the search goes
      on after it. */
  lemma PdfFindsLink(s: string, i: nat, text: string, url: string)
    requires ']' !in text && '\n' !in text && ')' !in url && '\n' !in url && EndsPdf(url)
    requires i + |text| + |url| + 4 <= |s| && s[i..i + |text| + |url| + 4] == LinkText(text, url)
    requires forall k :: 0 <= k < i ==> NoPdfMatchAt(s, k)
    ensures PdfLinks(s) == [url] + PdfLinksFrom(s, i + |text| + |url| + 4)
  {
    PdfLinksSkips(s, 0, i);
    PdfLinksAtLink(s, i, text, url);
  }

  lemma {:induction false} CloseParenSkips(s: string, start: nat, j: nat)
    requires start <= j < |s|
    requires forall k :: start <= k < |s| - 1 ==> s[k] != ')' && s[k] != '\n'
    requires s[|s| - 1] == ')'
    ensures '\n' !in s[start..j] && ')' !in s[start..j]
    ensures CloseParen(s, start, j, false) == Some(|s| - 1)
    decreases |s| - j
  {
    assert forall k :: 0 <= k < j - start ==> s[start..j][k] == s[start + k];
    if j < |s| - 1 {
      assert s[start..j + 1] == s[start..j] + [s[j]];
      CloseParenSkips(s, start, j + 1);
    }
  }

  lemma {:induction false} CloseBracketSkips(s: string, a: nat, from: nat, e: nat)
    requires a <= from <= e && e + 1 < |s|
    requires forall k :: a <= k < e ==> s[k] != ']' && s[k] != '\n'
    requires s[e] == ']' && s[e + 1] == '('
    requires CloseParen(s, e + 2, e + 2, false).Some?
    ensures '\n' !in s[a..from]
    ensures CloseBracket(s, a, from, false) == Some((e, CloseParen(s, e + 2, e + 2, false).value))
    decreases e - from
  {
    assert forall k :: 0 <= k < from - a ==> s[a..from][k] == s[a + k];
    if from < e {
      assert s[a..from + 1] == s[a..from] + [s[from]];
      CloseBracketSkips(s, a, from + 1, e);
    }
  }

  /** A lone image reference whose alt text has no `]` and whose URL has no
      `)` (neither with a newline) is one match. */
  lemma ScanOneReference(s: string, alt: string, url: string)
    requires s == "![" + alt + "](" + url + ")"
    requires ']' !in alt && '\n' !in alt && ')' !in url && '\n' !in url
    ensures Scan(s) == [ImageRef(alt, url)]
  {
    var e := |alt| + 2;
    assert s[2..e] == alt && s[e + 2..|s| - 1] == url;
    assert forall k :: e + 2 <= k < |s| - 1 ==> s[k] == url[k - e - 2];
    CloseParenSkips(s, e + 2, e + 2);
    assert forall k :: 2 <= k < e ==> s[k] == alt[k - 2];
    CloseBracketSkips(s, 2, 2, e);
    assert ImageMatchAt(s, 0) == Some((e, |s| - 1));
    assert ScanFrom(s, |s|) == [];
  }

  /** When the URL of that lone reference resolves, it is rewritten to the
      same alt text and the image's local name, and that image is the one
      fetch. */
  lemma RewriteOneReference(s: string, alt: string, url: string, join: string -> string, name: string -> string)
    requires s == "![" + alt + "](" + url + ")"
    requires ']' !in alt && '\n' !in alt && ')' !in url && '\n' !in url
    requires Resolve(url, join).Some?
    ensures var v := Resolve(url, join).value;
      && Rewrite(s, join, name) == "![" + alt + "](" + name(v) + ")"
      && ImageFetches(Scan(s), join, name) == [(v, name(v))]
  {
    ScanOneReference(s, alt, url);
    var v := Resolve(url, join).value;
    assert LocalizeAll([ImageRef(alt, url)], join, name) == [ImageRef(alt, name(v))];
    assert RenderAll([ImageRef(alt, name(v))]) == Render(ImageRef(alt, name(v)));
  }

  /** An absolute `http` image reference such as
      `![alt](https://host/path/img.png?x=1)` becomes `![alt](img.png)`: the
      query is dropped, only the last path component is kept, and the image
      is fetched from the full URL. */
  lemma RewriteHttpReference(s: string, alt: string, path: string, file: string, query: string, join: string -> string)
    requires s == "![" + alt + "](" + path + "/" + file + "?" + query + ")"
    requires StartsWith(path, "http")
    requires ']' !in alt && '\n' !in alt
    requires ')' !in path && '\n' !in path && '\\' !in path
    requires ')' !in file && '\n' !in file && '\\' !in file
    requires ')' !in query && '\n' !in query && '\\' !in query
    requires '?' !in path && '?' !in file && '%' !in path && '%' !in file
    requires '/' !in file && Clean(file)
    requires file == [] || (!IsSpace(file[0]) && !IsSpace(file[|file| - 1]))
    ensures Rewrite(s, join, ImageName) == "![" + alt + "](" + file + ")"
    ensures ImageFetches(Scan(s), join, ImageName) == [(path + "/" + file + "?" + query, file)]
  {
    var url := path + "/" + file + "?" + query;
    assert s == "![" + alt + "](" + url + ")";
    assert ')' !in url && '\n' !in url && '\\' !in url;
    assert Resolve(url, join) == Some(url) by {
      assert Unescape(url) == url;
      assert url[..|path|] == path;
    }
    assert ImageName(url) == file by {
      ImageNameOfPlainUrl(path, file, query);
    }
    RewriteOneReference(s, alt, url, join, ImageName);
  }
}
