/**
 * Blind text surgery on index.html (convert-images.js, lines 116-140): the
 * previously generated script block, found by its marker comment, is
 * replaced by a fresh one; without it the fresh block goes in front of the
 * first `</head>`; without that the run fails and nothing is written.
 *
 * The pattern /<script>\s*\/\/\s*图片 base64 数据.*?<\/script>/s is modelled
 * by `MatchAt`: the header "<script>", white space, "//", white space and the
 * marker, then the shortest stretch up to the first "</script>". Neither
 * `\s*` can give back characters (each is followed by a character that is
 * not white space), so the greedy runs are the only way to match.
 */
module HtmlSplice {
  import opened Wrappers
  import opened Text

  const Open: string := "<script>"
  const Close: string := "</script>"
  const HeadClose: string := "</head>"
  const Marker: string := "图片 base64 数据"

  /** The opening of every generated block, up to and including the marker. */
  const Header: string := "<script>\n        // 图片 base64 数据"
  /** The rest of the generated comment line and the start of the assignment. */
  const Note: string := "（自动生成，已压缩优化）\n        const imagesBase64 = "
  const Tail: string := ";\n"

  /** The block the inliner writes, around the serialised mapping `payload`. */
  function ScriptBlock(payload: string): string {
    Header + Note + payload + Tail + Close
  }

  /** `\s` of JavaScript regular expressions. */
  predicate IsSpace(c: char) {
    c == '\t' || c == '\n' || c == '\U{000B}' || c == '\U{000C}' || c == '\r' || c == ' '
    || c == '\U{00A0}' || c == '\U{1680}' || '\U{2000}' <= c <= '\U{200A}'
    || c == '\U{2028}' || c == '\U{2029}' || c == '\U{202F}' || c == '\U{205F}'
    || c == '\U{3000}' || c == '\U{FEFF}'
  }

  /** Where a greedy `\s*` starting at `i` stops. */
  function SkipSpaces(s: string, i: nat): (j: nat)
    requires i <= |s|
    ensures i <= j <= |s|
    decreases |s| - i
  {
    if i < |s| && IsSpace(s[i]) then SkipSpaces(s, i + 1) else i
  }

  /** The end of the pattern's header part when it starts at `p`. */
  function HeaderEnd(s: string, p: nat): (r: Option<nat>)
    ensures r.Some? ==> p + |Open| + 2 + |Marker| <= r.value <= |s|
  {
    if !StartsAt(s, p, Open) then None
    else
      var a := SkipSpaces(s, p + |Open|);
      if !StartsAt(s, a, "//") then None
      else
        var b := SkipSpaces(s, a + 2);
        if StartsAt(s, b, Marker) then Some(b + |Marker|) else None
  }

  /** The end of the match of the whole pattern at `p`: the shortest one. */
  function MatchAt(s: string, p: nat): (r: Option<nat>)
    ensures r.Some? ==> HeaderEnd(s, p).Some? && HeaderEnd(s, p).value + |Close| <= r.value <= |s|
  {
    match HeaderEnd(s, p)
    case None => None
    case Some(h) =>
      match Find(s, Close, h)
      case None => None
      case Some(c) => Some(c + |Close|)
  }

  /** The leftmost match at or after `from`, as (start, end). */
  function FirstMatch(s: string, from: nat): (r: Option<(nat, nat)>)
    ensures r.Some? ==> from <= r.value.0 < r.value.1 <= |s|
    decreases |s| - from
  {
    if from + |Open| > |s| then None
    else
      match MatchAt(s, from)
      case Some(e) => Some((from, e))
      case None => FirstMatch(s, from + 1)
  }

  datatype SpliceError = MissingHeadTag

  /**
   * The new contents of index.html with `block` in place: over the first
   * match of the pattern, else in front of the first `</head>`; the error is
   * the `process.exit(1)` taken before anything is written.
   */
  function SpliceBlock(html: string, block: string): (r: Result<string, SpliceError>)
    ensures r.Err? <==> FirstMatch(html, 0).None? && !Contains(html, HeadClose)
  {
    match FirstMatch(html, 0)
    case Some((s, e)) => Ok(html[..s] + block + html[e..])
    case None =>
      match Find(html, HeadClose, 0)
      case Some(h) => Ok(html[..h] + block + "\n    " + HeadClose + html[h + |HeadClose|..])
      case None => Err(MissingHeadTag)
  }

  /** The splice of the generated block around the serialised mapping. */
  function Splice(html: string, payload: string): (r: Result<string, SpliceError>)
    ensures r.Err? <==> FirstMatch(html, 0).None? && !Contains(html, HeadClose)
  {
    SpliceBlock(html, ScriptBlock(payload))
  }

  /** With an old block present, it is replaced and the text around it is kept. */
  lemma {:induction false} SpliceReplaces(html: string, block: string)
    requires FirstMatch(html, 0).Some?
    ensures var (s, e) := FirstMatch(html, 0).value;
      var out := SpliceBlock(html, block);
      out.Ok? && |out.value| == s + |block| + |html| - e
      && out.value[..s] == html[..s] && out.value[s..s + |block|] == block
      && out.value[s + |block|..] == html[e..]
  {
  }

  /** Without one, the block and a line break go in front of the first `</head>`. */
  lemma {:induction false} SpliceInserts(html: string, block: string)
    requires FirstMatch(html, 0).None? && Contains(html, HeadClose)
    ensures var h := Find(html, HeadClose, 0).value;
      StartsAt(html, h, HeadClose) && !Contains(html[..h], HeadClose)
      && SpliceBlock(html, block) == Ok(html[..h] + block + "\n    " + html[h..])
  {
    var h := Find(html, HeadClose, 0).value;
    FindSpec(html, HeadClose, 0);
    assert html[h..] == HeadClose + html[h + |HeadClose|..];
    var r := html[..h] + block + "\n    " + HeadClose + html[h + |HeadClose|..];
    assert r == html[..h] + block + "\n    " + html[h..];
    forall k | 0 <= k && k + |HeadClose| <= h ensures !StartsAt(html[..h], k, HeadClose) {
      assert html[..h][k..k + |HeadClose|] == html[k..k + |HeadClose|];
      assert !StartsAt(html, k, HeadClose);
    }
    ContainsIff(html[..h], HeadClose);
  }

  // ---------------------------------------------------------------------------
  // Facts about the pattern

  /** `SkipSpaces` stops at the first character that is not white space. */
  lemma {:induction false} SkipSpacesSpec(s: string, i: nat)
    requires i <= |s|
    ensures forall k :: i <= k < SkipSpaces(s, i) ==> IsSpace(s[k])
    ensures SkipSpaces(s, i) < |s| ==> !IsSpace(s[SkipSpaces(s, i)])
    decreases |s| - i
  {
    if i < |s| && IsSpace(s[i]) {
      SkipSpacesSpec(s, i + 1);
    }
  }

  /** Conversely, a run of white space ended by the end or by another character is what `SkipSpaces` skips. */
  lemma {:induction false} SkipSpacesIs(s: string, i: nat, j: nat)
    requires i <= j <= |s|
    requires forall k :: i <= k < j ==> IsSpace(s[k])
    requires j < |s| ==> !IsSpace(s[j])
    ensures SkipSpaces(s, i) == j
    decreases j - i
  {
    if i < j {
      assert IsSpace(s[i]);
      SkipSpacesIs(s, i + 1, j);
    }
  }

  /** A match at `p` ends with the first "</script>" after the header, and there is none when no "</script>" follows it. */
  lemma {:induction false} MatchAtSpec(s: string, p: nat)
    ensures MatchAt(s, p).Some? ==> StartsAt(s, MatchAt(s, p).value - |Close|, Close)
    ensures MatchAt(s, p).Some? ==>
      forall k :: HeaderEnd(s, p).value <= k < MatchAt(s, p).value - |Close| ==> !StartsAt(s, k, Close)
    ensures HeaderEnd(s, p).Some? && MatchAt(s, p).None? ==>
      forall k :: HeaderEnd(s, p).value <= k ==> !StartsAt(s, k, Close)
  {
    if HeaderEnd(s, p).Some? {
      FindSpec(s, Close, HeaderEnd(s, p).value);
    }
  }

  /** `FirstMatch` returns a match, no match starts before it, and it returns `None` only when there is none. */
  lemma {:induction false} FirstMatchSpec(s: string, from: nat)
    ensures FirstMatch(s, from).Some? ==> MatchAt(s, FirstMatch(s, from).value.0) == Some(FirstMatch(s, from).value.1)
    ensures FirstMatch(s, from).Some? ==> forall p: nat :: from <= p < FirstMatch(s, from).value.0 ==> MatchAt(s, p).None?
    ensures FirstMatch(s, from).None? ==> forall p: nat :: from <= p ==> MatchAt(s, p).None?
  {
    FirstMatchFound(s, from);
    FirstMatchLeftmost(s, from);
    FirstMatchNone(s, from);
  }

  lemma {:induction false} FirstMatchFound(s: string, from: nat)
    ensures FirstMatch(s, from).Some? ==> MatchAt(s, FirstMatch(s, from).value.0) == Some(FirstMatch(s, from).value.1)
    decreases |s| - from
  {
    if from + |Open| <= |s| && MatchAt(s, from).None? {
      FirstMatchFound(s, from + 1);
    }
  }

  lemma {:induction false} FirstMatchLeftmost(s: string, from: nat)
    ensures FirstMatch(s, from).Some? ==> forall p: nat :: from <= p < FirstMatch(s, from).value.0 ==> MatchAt(s, p).None?
    decreases |s| - from
  {
    if from + |Open| <= |s| && MatchAt(s, from).None? {
      FirstMatchLeftmost(s, from + 1);
    }
  }

  lemma {:induction false} FirstMatchNone(s: string, from: nat)
    ensures FirstMatch(s, from).None? ==> forall p: nat :: from <= p ==> MatchAt(s, p).None?
    decreases |s| - from
  {
    if from + |Open| > |s| {
      forall p: nat | from <= p ensures MatchAt(s, p).None? {
        NoRoomNoMatch(s, p);
      }
    } else if MatchAt(s, from).None? {
      FirstMatchNone(s, from + 1);
    }
  }

  lemma {:induction false} NoRoomNoMatch(s: string, p: nat)
    requires p + |Open| > |s|
    ensures MatchAt(s, p).None?
  {
  }

  /** The header of a match contains no '<' after its first character. */
  lemma {:induction false} HeaderInterior(s: string, p: nat)
    requires HeaderEnd(s, p).Some?
    ensures forall k :: p < k < HeaderEnd(s, p).value ==> s[k] != '<'
  {
    var a := SkipSpaces(s, p + |Open|);
    var b := SkipSpaces(s, a + 2);
    LiteralsNoLt();
    NoLtIn(s, p, Open, 1);
    SpacesNoLt(s, p + |Open|);
    NoLtIn(s, a, "//", 0);
    SpacesNoLt(s, a + 2);
    NoLtIn(s, b, Marker, 0);
  }

  /** Which characters of the pattern's literal parts are '<'. */
  lemma {:induction false} LiteralsNoLt()
    ensures forall j :: 1 <= j < |Open| ==> Open[j] != '<'
    ensures forall j :: 0 <= j < |"//"| ==> "//"[j] != '<'
    ensures forall j :: 0 <= j < |Marker| ==> Marker[j] != '<'
  {
  }

  /** Where `pat` occurs, the characters of it that are not '<' are not '<' in `s`. */
  lemma {:induction false} NoLtIn(s: string, i: nat, pat: string, j0: nat)
    requires StartsAt(s, i, pat) && forall j :: j0 <= j < |pat| ==> pat[j] != '<'
    ensures forall k :: i + j0 <= k < i + |pat| ==> s[k] != '<'
  {
    forall k | i + j0 <= k < i + |pat| ensures s[k] != '<' {
      assert s[k] == s[i..i + |pat|][k - i];
    }
  }

  /** White space is not '<'. */
  lemma {:induction false} SpacesNoLt(s: string, i: nat)
    requires i <= |s|
    ensures forall k :: i <= k < SkipSpaces(s, i) ==> s[k] != '<'
    decreases |s| - i
  {
    if i < |s| && IsSpace(s[i]) {
      SpacesNoLt(s, i + 1);
    }
  }

  /** Whether a header is found at `p` depends only on the characters it spans. */
  lemma {:induction false} HeaderLocal(s: string, t: string, p: nat)
    requires HeaderEnd(s, p).Some? && HeaderEnd(s, p).value <= |t|
    requires forall k :: p <= k < HeaderEnd(s, p).value ==> t[k] == s[k]
    ensures HeaderEnd(t, p) == HeaderEnd(s, p)
  {
    var e := HeaderEnd(s, p).value;
    HeaderEndParts(s, p);
    var a := SkipSpaces(s, p + |Open|);
    var b := SkipSpaces(s, a + 2);
    SliceAgree(s, t, p, p + |Open|);
    SpacesAgree(s, t, p + |Open|, a);
    SliceAgree(s, t, a, a + 2);
    SpacesAgree(s, t, a + 2, b);
    SliceAgree(s, t, b, e);
    HeaderEndIs(t, p, a, b);
  }

  /** The three literal parts of a header found at `p`, and where it ends. */
  lemma {:induction false} HeaderEndParts(s: string, p: nat)
    requires HeaderEnd(s, p).Some?
    ensures StartsAt(s, p, Open)
    ensures StartsAt(s, SkipSpaces(s, p + |Open|), "//")
    ensures StartsAt(s, SkipSpaces(s, SkipSpaces(s, p + |Open|) + 2), Marker)
    ensures HeaderEnd(s, p).value == SkipSpaces(s, SkipSpaces(s, p + |Open|) + 2) + |Marker|
  {
  }

  /** A header is found at `p` when its three literal parts are where the pattern looks for them. */
  lemma {:induction false} HeaderEndIs(s: string, p: nat, a: nat, b: nat)
    requires StartsAt(s, p, Open) && a == SkipSpaces(s, p + |Open|)
    requires StartsAt(s, a, "//") && b == SkipSpaces(s, a + 2)
    requires StartsAt(s, b, Marker)
    ensures HeaderEnd(s, p) == Some(b + |Marker|)
  {
  }

  lemma {:induction false} SliceAgree(s: string, t: string, i: nat, j: nat)
    requires i <= j <= |s| && j <= |t|
    requires forall k :: i <= k < j ==> t[k] == s[k]
    ensures t[i..j] == s[i..j]
  {
  }

  /** A run skipped in `s`, followed by a character that is not white space, is skipped alike in `t` when they agree. */
  lemma {:induction false} SpacesAgree(s: string, t: string, i: nat, j: nat)
    requires i <= |s| && j == SkipSpaces(s, i) && j < |s| && j < |t|
    requires forall k :: i <= k <= j ==> t[k] == s[k]
    ensures SkipSpaces(t, i) == j
  {
    SkipSpacesSpec(s, i);
    SkipSpacesIs(t, i, j);
  }

  /** The parts of `Header`, as the pattern reads them. */
  lemma {:induction false} HeaderParts()
    ensures |Header| == 32 && Header[..8] == Open
    ensures forall i :: 8 <= i < 17 ==> IsSpace(Header[i])
    ensures Header[17..19] == "//" && !IsSpace(Header[17])
    ensures IsSpace(Header[19]) && Header[20..] == Marker && !IsSpace(Header[20])
  {
    assert Header == Open + "\n        " + "//" + " " + Marker;
  }

  /** A generated block starts with a header. */
  lemma {:induction false} HeaderOfBlock(t: string, pre: string, x: string)
    requires t == pre + Header + x
    ensures HeaderEnd(t, |pre|) == Some(|pre| + |Header|)
  {
    var p := |pre|;
    HeaderParts();
    assert t[p..p + |Header|] == Header;
    assert forall i :: 0 <= i < |Header| ==> t[p + i] == Header[i];
    assert t[p..p + 8] == Open;
    SkipSpacesIs(t, p + 8, p + 17);
    assert t[p + 17..p + 19] == "//";
    SkipSpacesIs(t, p + 19, p + 20);
    assert t[p + 20..p + 32] == Marker;
  }

  /** The fixed text around the payload holds no '<', and "</script>" no ';'. */
  lemma {:induction false} NoteTailParts()
    ensures forall i :: 0 <= i < |Note| ==> Note[i] != '<'
    ensures |Tail| == 2 && Tail[0] == ';' && Tail[1] != '<'
    ensures |Close| == 9 && Close[0] == '<' && forall j :: 0 <= j < |Close| ==> Close[j] != ';'
  {
  }

  /** The text between a block's header and its "</script>": fixed text without '<' around the payload. */
  predicate BodyShape(note: string, tail: string) {
    (forall i :: 0 <= i < |note| ==> note[i] != '<')
    && |tail| > 0 && tail[0] == ';' && (forall i :: 0 <= i < |tail| ==> tail[i] != '<')
  }

  /** No "</script>" starts in the note, the payload or the tail of a block. */
  lemma {:induction false} NoCloseAt(t: string, pre: string, hdr: string, note: string, payload: string, tail: string, post: string, k: nat)
    requires t == pre + (hdr + note + payload + tail + Close) + post
    requires BodyShape(note, tail) && !Contains(payload, Close)
    requires |pre| + |hdr| <= k < |pre| + |hdr| + |note| + |payload| + |tail|
    ensures !StartsAt(t, k, Close)
  {
    var h := |pre| + |hdr|;
    var p0 := h + |note|;
    var p1 := p0 + |payload|;
    assert |Close| == 9 && Close[0] == '<';
    assert forall j :: 0 <= j < 9 ==> Close[j] != ';';
    ContainsIff(payload, Close);
    if k + 9 <= |t| {
      var w := t[k..k + 9];
      if k < p0 {
        assert w[0] == note[k - h];
      } else if k + 9 <= p1 {
        assert w == payload[k - p0..k - p0 + 9];
        assert !StartsAt(payload, k - p0, Close);
      } else if k < p1 {
        assert w[p1 - k] == t[p1] == tail[0];
      } else {
        assert w[0] == tail[k - p1];
      }
    }
  }

  /** After the header, the first "</script>" of a block is its own. */
  lemma {:induction false} CloseAfterBody(t: string, pre: string, hdr: string, note: string, payload: string, tail: string, post: string)
    requires t == pre + (hdr + note + payload + tail + Close) + post
    requires BodyShape(note, tail) && !Contains(payload, Close)
    ensures Find(t, Close, |pre| + |hdr|) == Some(|pre| + |hdr| + |note| + |payload| + |tail|)
  {
    var c := |pre| + |hdr| + |note| + |payload| + |tail|;
    assert t[c..c + |Close|] == Close;
    forall k | |pre| + |hdr| <= k < c ensures !StartsAt(t, k, Close) {
      NoCloseAt(t, pre, hdr, note, payload, tail, post, k);
    }
    FindIs(t, Close, |pre| + |hdr|, c);
  }

  /**
   * A generated block is matched from its start to its own "</script>",
   * provided the payload does not contain "</script>".
   */
  lemma {:induction false} BlockMatch(pre: string, payload: string, post: string)
    requires !Contains(payload, Close)
    ensures MatchAt(pre + ScriptBlock(payload) + post, |pre|) == Some(|pre| + |ScriptBlock(payload)|)
  {
    BlockMatchIn(pre + ScriptBlock(payload) + post, pre, payload, post);
  }

  lemma {:induction false} BlockMatchIn(t: string, pre: string, payload: string, post: string)
    requires t == pre + ScriptBlock(payload) + post && !Contains(payload, Close)
    ensures MatchAt(t, |pre|) == Some(|pre| + |ScriptBlock(payload)|)
  {
    BlockHeader(t, pre, payload, post);
    BlockClose(t, pre, payload, post);
    MatchFromParts(t, |pre|, |ScriptBlock(payload)|);
  }

  lemma {:induction false} MatchFromParts(t: string, p: nat, b: nat)
    requires HeaderEnd(t, p) == Some(p + |Header|)
    requires Find(t, Close, p + |Header|) == Some(p + b - |Close|)
    ensures MatchAt(t, p) == Some(p + b)
  {
  }

  /** A block placed after `pre` has its header right there. */
  lemma {:induction false} BlockHeader(t: string, pre: string, payload: string, post: string)
    requires t == pre + ScriptBlock(payload) + post
    ensures HeaderEnd(t, |pre|) == Some(|pre| + |Header|)
  {
    BlockLayout(pre, payload, post);
    HeaderOfBlock(t, pre, Note + payload + Tail + (Close + post));
  }

  /** A block placed after `pre` has its own "</script>" as the first one after its header. */
  lemma {:induction false} BlockClose(t: string, pre: string, payload: string, post: string)
    requires t == pre + ScriptBlock(payload) + post && !Contains(payload, Close)
    ensures Find(t, Close, |pre| + |Header|) == Some(|pre| + |ScriptBlock(payload)| - |Close|)
  {
    BlockLength(payload);
    BodyShapeOfBlock();
    CloseAfterBody(t, pre, Header, Note, payload, Tail, post);
  }

  /** How a block sits in the text around it. */
  lemma {:induction false} BlockLayout(pre: string, payload: string, post: string)
    ensures pre + ScriptBlock(payload) + post == pre + Header + (Note + payload + Tail + (Close + post))
  {
  }

  lemma {:induction false} BlockLength(payload: string)
    ensures |ScriptBlock(payload)| == |Header| + |Note| + |payload| + |Tail| + |Close|
  {
  }

  lemma {:induction false} BodyShapeOfBlock()
    ensures BodyShape(Note, Tail)
  {
    NoteTailParts();
  }

  /** A block that the pattern matches exactly, from its first to its last character, wherever it is placed. */
  ghost predicate SelfMatching(b: string) {
    |b| > 0 && b[0] == '<'
    && forall pre: string, post: string ::
         MatchAt(pre + b + post, |pre|) == Some(|pre| + |b|)
  }

  /** The generated block is such a block when the payload holds no "</script>". */
  lemma {:induction false} ScriptBlockSelfMatching(payload: string)
    requires !Contains(payload, Close)
    ensures SelfMatching(ScriptBlock(payload))
  {
    BlockStart(payload);
    forall pre: string, post: string
      ensures MatchAt(pre + ScriptBlock(payload) + post, |pre|) == Some(|pre| + |ScriptBlock(payload)|)
    {
      BlockMatch(pre, payload, post);
    }
  }

  lemma {:induction false} BlockStart(payload: string)
    ensures |ScriptBlock(payload)| > 0 && ScriptBlock(payload)[0] == '<'
  {
    HeaderParts();
    assert ScriptBlock(payload)[0] == Header[0];
  }

  // ---------------------------------------------------------------------------
  // Re-running the splice

  /** No header of the pattern lies wholly inside `s[..m]`. */
  predicate NoHeaderWithin(s: string, m: nat) {
    forall q: nat :: q < m ==> HeaderEnd(s, q).None? || HeaderEnd(s, q).value > m
  }

  /**
   * A marker header with no "</script>" after it does not come before the
   * first `</head>`: the one layout in which a second run would not find the
   * block the first run inserted.
   */
  predicate NoDanglingHeader(html: string) {
    FirstMatch(html, 0).None? && Contains(html, HeadClose) ==>
      NoHeaderWithin(html, Find(html, HeadClose, 0).value)
  }

  /** A match with none before it is the leftmost match. */
  lemma {:induction false} FirstMatchFrom(s: string, from: nat, m: nat, e: nat)
    requires from <= m && MatchAt(s, m) == Some(e)
    requires forall q: nat :: from <= q < m ==> MatchAt(s, q).None?
    ensures FirstMatch(s, from) == Some((m, e))
    decreases m - from
  {
    if from < m {
      FirstMatchFrom(s, from + 1, m, e);
    }
  }

  /** Every header that starts before the leftmost match runs past the match's start. */
  lemma {:induction false} LeftmostNoHeaderWithin(html: string, m: nat, e: nat)
    requires FirstMatch(html, 0) == Some((m, e))
    ensures NoHeaderWithin(html, m)
  {
    FirstMatchSpec(html, 0);
    MatchAtSpec(html, m);
    forall q: nat | q < m && HeaderEnd(html, q).Some? ensures HeaderEnd(html, q).value > m {
      MatchAtSpec(html, q);
    }
  }

  /** Where `t` agrees with `src` up to a '<' at `m`, and `src` has no header inside that stretch, no header starts there in `t`. */
  lemma {:induction false} HeadersBeforeLt(t: string, src: string, m: nat)
    requires m < |t| && t[m] == '<' && m <= |src|
    requires forall k :: 0 <= k < m ==> t[k] == src[k]
    requires NoHeaderWithin(src, m)
    ensures forall q: nat :: q < m ==> HeaderEnd(t, q).None?
  {
    forall q: nat | q < m ensures HeaderEnd(t, q).None? {
      if HeaderEnd(t, q).Some? {
        HeaderInterior(t, q);
        HeaderLocal(t, src, q);
        assert false;
      }
    }
  }

  /** Where no header starts, no match starts. */
  lemma {:induction false} NoMatchBefore(t: string, m: nat)
    requires forall q: nat :: q < m ==> HeaderEnd(t, q).None?
    ensures forall q: nat :: 0 <= q < m ==> MatchAt(t, q).None?
  {
  }

  /** What lies before a block placed after `src[..m]`. */
  lemma {:induction false} BlockPrefix(t: string, src: string, m: nat, b: string, post: string)
    requires m <= |src| && t == src[..m] + b + post && |b| > 0
    ensures m < |t| && t[m] == b[0]
    ensures forall k :: 0 <= k < m ==> t[k] == src[k]
  {
  }

  /** A self-matching block placed after text without a complete header in it is the leftmost match. */
  lemma {:induction false} BlockFirst(t: string, src: string, m: nat, b: string, post: string)
    requires m <= |src| && t == src[..m] + b + post
    requires SelfMatching(b) && NoHeaderWithin(src, m)
    ensures FirstMatch(t, 0) == Some((m, m + |b|))
  {
    BlockPrefix(t, src, m, b, post);
    HeadersBeforeLt(t, src, m);
    NoMatchBefore(t, m);
    assert |src[..m]| == m;
    assert MatchAt(src[..m] + b + post, |src[..m]|) == Some(|src[..m]| + |b|);
    FirstMatchFrom(t, 0, m, m + |b|);
  }

  /** After a replacement, the new block is the leftmost match of the output. */
  lemma {:induction false} ReplacedFirst(html: string, b: string, m: nat, e: nat)
    requires FirstMatch(html, 0) == Some((m, e)) && SelfMatching(b)
    ensures m <= e <= |html|
    ensures FirstMatch(html[..m] + b + html[e..], 0) == Some((m, m + |b|))
  {
    LeftmostNoHeaderWithin(html, m, e);
    BlockFirst(html[..m] + b + html[e..], html, m, b, html[e..]);
  }

  /** After an insertion in front of `</head>`, the new block is the leftmost match of the output. */
  lemma {:induction false} InsertedFirst(html: string, b: string, h: nat)
    requires h <= |html| && SelfMatching(b) && NoHeaderWithin(html, h)
    ensures FirstMatch(html[..h] + b + ("\n    " + html[h..]), 0) == Some((h, h + |b|))
  {
    BlockFirst(html[..h] + b + ("\n    " + html[h..]), html, h, b, "\n    " + html[h..]);
  }

  /** Splicing over a replaced block puts the new block where the old page had its match. */
  lemma {:induction false} TwiceReplaced(html: string, b1: string, b2: string, m: nat, e: nat)
    requires FirstMatch(html, 0) == Some((m, e)) && SelfMatching(b1)
    ensures SpliceBlock(html[..m] + b1 + html[e..], b2) == Ok(html[..m] + b2 + html[e..])
  {
    var out := html[..m] + b1 + html[e..];
    ReplacedFirst(html, b1, m, e);
    assert out[..m] == html[..m];
    assert out[m + |b1|..] == html[e..];
  }

  /** Splicing over an inserted block puts the new block in front of `</head>` of the old page. */
  lemma {:induction false} TwiceInserted(html: string, b1: string, b2: string, h: nat)
    requires h <= |html| && SelfMatching(b1) && NoHeaderWithin(html, h)
    ensures SpliceBlock(html[..h] + b1 + ("\n    " + html[h..]), b2) == Ok(html[..h] + b2 + ("\n    " + html[h..]))
  {
    var post := "\n    " + html[h..];
    var out := html[..h] + b1 + post;
    InsertedFirst(html, b1, h);
    assert out[..h] == html[..h];
    assert out[h + |b1|..] == post;
  }

  /** The insertion case of `SpliceBlock`, with the line break grouped with the rest of the page. */
  lemma {:induction false} InsertedShape(html: string, b: string)
    requires FirstMatch(html, 0).None? && Contains(html, HeadClose)
    ensures var h := Find(html, HeadClose, 0).value;
      h <= |html| && SpliceBlock(html, b) == Ok(html[..h] + b + ("\n    " + html[h..]))
  {
    SpliceInserts(html, b);
    var h := Find(html, HeadClose, 0).value;
    assert html[..h] + b + "\n    " + html[h..] == html[..h] + b + ("\n    " + html[h..]);
  }

  /**
   * Splicing again with another block gives what a single splice with that
   * block gives: the second run replaces exactly the block the first one wrote.
   */
  lemma {:induction false} SpliceBlockTwice(html: string, b1: string, b2: string)
    requires SpliceBlock(html, b1).Ok? && SelfMatching(b1) && NoDanglingHeader(html)
    ensures SpliceBlock(SpliceBlock(html, b1).value, b2) == SpliceBlock(html, b2)
  {
    if FirstMatch(html, 0).Some? {
      var (m, e) := FirstMatch(html, 0).value;
      TwiceReplaced(html, b1, b2, m, e);
    } else {
      var h := Find(html, HeadClose, 0).value;
      InsertedShape(html, b1);
      InsertedShape(html, b2);
      TwiceInserted(html, b1, b2, h);
    }
  }

  /**
   * Re-running the inliner with a new mapping replaces the block of the
   * previous run: the result is that of a single run on the original page.
   */
  lemma {:induction false} SpliceTwice(html: string, first: string, second: string)
    requires Splice(html, first).Ok? && !Contains(first, Close) && NoDanglingHeader(html)
    ensures Splice(Splice(html, first).value, second) == Splice(html, second)
  {
    ScriptBlockSelfMatching(first);
    SpliceBlockTwice(html, ScriptBlock(first), ScriptBlock(second));
  }

  /** In particular a second run with the same mapping changes nothing. */
  lemma {:induction false} SpliceIdempotent(html: string, payload: string)
    requires Splice(html, payload).Ok? && !Contains(payload, Close) && NoDanglingHeader(html)
    ensures Splice(Splice(html, payload).value, payload) == Splice(html, payload)
  {
    SpliceTwice(html, payload, payload);
  }
  // ---------------------------------------------------------------------------
  // A page with a dangling header

  /** A header starts with '<'. */
  lemma {:induction false} HeaderStartsLt(s: string, p: nat)
    requires HeaderEnd(s, p).Some?
    ensures s[p] == '<'
  {
    assert s[p..p + |Open|][0] == s[p];
  }

  /** No closing tag starts within a header: its '<' is followed by 's', and it has no other '<'. */
  lemma {:induction false} NoClosingTagInHeader(s: string, p: nat)
    requires HeaderEnd(s, p).Some?
    ensures forall k :: p <= k < HeaderEnd(s, p).value ==> !StartsAt(s, k, Close) && !StartsAt(s, k, HeadClose)
  {
    HeaderInterior(s, p);
    assert s[p..p + |Open|][1] == s[p + 1] == 's';
    forall k | p <= k < HeaderEnd(s, p).value ensures !StartsAt(s, k, Close) && !StartsAt(s, k, HeadClose) {
      if k + |Close| <= |s| {
        assert s[k..k + |Close|][0] == s[k] && s[k..k + |Close|][1] == s[k + 1];
      }
      if k + |HeadClose| <= |s| {
        assert s[k..k + |HeadClose|][0] == s[k] && s[k..k + |HeadClose|][1] == s[k + 1];
      }
    }
  }

  /** With a header at 0 and room for nothing after it but a `</head>`, no match starts anywhere. */
  lemma {:induction false} NoMatchInShortPage(html: string)
    requires HeaderEnd(html, 0) == Some(|Header|) && |html| < |Header| + |Close|
    ensures FirstMatch(html, 0).None?
  {
    HeaderParts();
    HeaderInterior(html, 0);
    forall p: nat | 0 < p < |Header| ensures HeaderEnd(html, p).None? {
      if HeaderEnd(html, p).Some? {
        HeaderStartsLt(html, p);
        assert false;
      }
    }
    assert forall p: nat :: MatchAt(html, p).None?;
    FirstMatchFound(html, 0);
  }

  /** The page that is a marker header and `</head>` has no match, and its `</head>` comes right after the header. */
  lemma {:induction false} DanglingPageParts(html: string)
    requires html == Header + HeadClose
    ensures HeaderEnd(html, 0) == Some(|Header|)
    ensures FirstMatch(html, 0).None?
    ensures Find(html, HeadClose, 0) == Some(|Header|)
  {
    HeaderParts();
    HeaderOfBlock(html, "", HeadClose);
    NoMatchInShortPage(html);
    NoClosingTagInHeader(html, 0);
    assert html[32..39] == HeadClose;
    FindIs(html, HeadClose, 0, 32);
  }

  /** The first run inserts in front of `</head>`, behind the header that nothing closes. */
  lemma {:induction false} DanglingFirstRun(html: string, payload: string)
    requires html == Header + HeadClose
    ensures !NoDanglingHeader(html)
    ensures Splice(html, payload) == Ok(Header + ScriptBlock(payload) + ("\n    " + HeadClose))
  {
    DanglingPageParts(html);
    InsertedShape(html, ScriptBlock(payload));
    assert html[..|Header|] == Header && html[|Header|..] == HeadClose;
    assert !(HeaderEnd(html, 0).None? || HeaderEnd(html, 0).value > |Header|);
  }

  /** A header directly followed by another one: the match of the first runs to the first "</script>" after the second. */
  lemma {:induction false} MatchOverHeader(t: string, h: nat, c: nat)
    requires HeaderEnd(t, 0) == Some(h) && HeaderEnd(t, h).Some?
    requires Find(t, Close, HeaderEnd(t, h).value) == Some(c)
    ensures FirstMatch(t, 0) == Some((0, c + |Close|))
  {
    FindSpec(t, Close, HeaderEnd(t, h).value);
    NoClosingTagInHeader(t, h);
    FindIs(t, Close, h, c);
  }

  /** After the first run, the dangling header, the header of the block right after it, and the block's own "</script>". */
  lemma {:induction false} DanglingSecondParts(t: string, payload: string)
    requires t == Header + ScriptBlock(payload) + ("\n    " + HeadClose) && !Contains(payload, Close)
    ensures HeaderEnd(t, 0) == Some(|Header|)
    ensures HeaderEnd(t, |Header|) == Some(|Header| + |Header|)
    ensures Find(t, Close, |Header| + |Header|) == Some(|Header| + |ScriptBlock(payload)| - |Close|)
  {
    HeaderOfBlock(t, "", ScriptBlock(payload) + ("\n    " + HeadClose));
    BlockHeader(t, Header, payload, "\n    " + HeadClose);
    BlockClose(t, Header, payload, "\n    " + HeadClose);
  }

  /** So the leftmost match runs from the dangling header to the end of the inserted block. */
  lemma {:induction false} DanglingSecondMatch(t: string, payload: string)
    requires t == Header + ScriptBlock(payload) + ("\n    " + HeadClose) && !Contains(payload, Close)
    ensures FirstMatch(t, 0) == Some((0, |Header| + |ScriptBlock(payload)|))
  {
    DanglingSecondParts(t, payload);
    BlockLength(payload);
    MatchOverHeader(t, |Header|, |Header| + |ScriptBlock(payload)| - |Close|);
  }

  /** So the second run replaces both the dangling header and the block of the first run. */
  lemma {:induction false} DanglingSecondRun(t: string, payload: string)
    requires t == Header + ScriptBlock(payload) + ("\n    " + HeadClose) && !Contains(payload, Close)
    ensures Splice(t, payload) == Ok(ScriptBlock(payload) + ("\n    " + HeadClose))
  {
    DanglingSecondMatch(t, payload);
    SpliceReplaces(t, ScriptBlock(payload));
    assert t[|Header| + |ScriptBlock(payload)|..] == "\n    " + HeadClose;
  }

  /**
   * On a page whose marker header has no "</script>" before `</head>`, the
   * second run does not give back what the first one wrote: it deletes the
   * dangling header along with the block of the first run.
   */
  lemma {:induction false} DanglingHeaderRerun(html: string, payload: string)
    requires html == Header + HeadClose && !Contains(payload, Close)
    ensures !NoDanglingHeader(html)
    ensures Splice(html, payload).Ok?
    ensures var once := Splice(html, payload).value;
      Splice(once, payload).Ok? && |Splice(once, payload).value| == |once| - |Header|
    ensures Splice(Splice(html, payload).value, payload) != Splice(html, payload)
  {
    DanglingFirstRun(html, payload);
    DanglingSecondRun(Splice(html, payload).value, payload);
    HeaderParts();
  }
}
