/**
 * `convertLinksToAnchors`: the text is split around the matches of the
 * URL pattern `(https?://[^\s]+)|(www\.[^\s]+)`, the empty and undefined
 * pieces are dropped, and each piece becomes an anchor when the pattern
 * finds a match in it, a plain span otherwise.
 */
module LinkUtils {
  import opened Wrappers
  import opened Text
  import opened Seqs

  /** A rendered piece: an anchor with its target, or a span. */
  datatype Part = Link(href: string, text: string) | Span(text: string)

  // ---------------------------------------------------------------------
  // The pattern

  predicate NoSpace(t: string) {
    forall k :: 0 <= k < |t| ==> !IsSpace(t[k])
  }

  /** The length of the literal a match at the front of `t` opens with
      (`https://`, `http://` or `www.`), provided one character that is
      not white space follows; 0 when no match starts there. */
  function PrefixLen(t: string): nat {
    if StartsWith(t, "https://") && |t| > 8 && !IsSpace(t[8]) then 8
    else if StartsWith(t, "http://") && |t| > 7 && !IsSpace(t[7]) then 7
    else if StartsWith(t, "www.") && |t| > 4 && !IsSpace(t[4]) then 4
    else 0
  }

  /** The characters from `i` up to the first white space or the end: what
      the greedy `[^\s]+` takes. */
  function NonSpaceRun(s: string, i: nat): (n: nat)
    requires i <= |s|
    ensures i + n <= |s|
    ensures forall k :: i <= k < i + n ==> !IsSpace(s[k])
    ensures i + n < |s| ==> IsSpace(s[i + n])
    decreases |s| - i
  {
    if i == |s| || IsSpace(s[i]) then 0 else 1 + NonSpaceRun(s, i + 1)
  }

  /** Where a match starting at `q` ends. */
  function MatchEnd(s: string, q: nat): (e: nat)
    requires q < |s| && PrefixLen(s[q..]) > 0
    ensures q + PrefixLen(s[q..]) < e <= |s|
  {
    var k := PrefixLen(s[q..]);
    assert s[q..][k] == s[q + k];
    q + k + NonSpaceRun(s, q + k)
  }

  /** No match starts anywhere in `[p, q)`. */
  predicate NoMatchBetween(s: string, p: nat, q: nat)
    requires p <= q <= |s|
  {
    forall k :: p <= k < q ==> PrefixLen(s[k..]) == 0
  }

  /** The capture groups a match contributes: the first group for an
      `http` match, the second for a `www.` one, the other undefined. */
  function Groups(m: string): seq<Option<string>> {
    if m != [] && m[0] == 'h' then [Some(m), None] else [None, Some(m)]
  }

  /** `text.split(URL_REGEX)` from position `q`, the current piece having
      started at `p` (section 22.2.6.14 of ECMA-262): a match is tried at
      each position; the text before it and its groups are emitted, and
      the scan resumes at its end. */
  function SplitPieces(s: string, p: nat, q: nat): seq<Option<string>>
    requires p <= q <= |s|
    decreases |s| - q
  {
    if q == |s| then [Some(s[p..])]
    else if PrefixLen(s[q..]) > 0 then
      var e := MatchEnd(s, q);
      [Some(s[p..q])] + Groups(s[q..e]) + SplitPieces(s, e, e)
    else SplitPieces(s, p, q + 1)
  }

  /** `filter(Boolean)`: the defined, non-empty pieces. */
  function Kept(pieces: seq<Option<string>>): (r: seq<string>)
    ensures forall i :: 0 <= i < |r| ==> r[i] != []
  {
    if pieces == [] then []
    else (if pieces[0].Some? && pieces[0].value != [] then [pieces[0].value] else []) + Kept(pieces[1..])
  }

  /** `URL_REGEX.test(part)` after resetting `lastIndex`: a match starts somewhere in the part. */
  predicate HasMatch(x: string) {
    exists i :: 0 <= i < |x| && PrefixLen(x[i..]) > 0
  }

  /** `part.startsWith("www.") ? "https://" + part : part`. */
  function Href(x: string): string {
    if StartsWith(x, "www.") then "https://" + x else x
  }

  function ToPart(x: string): Part {
    if HasMatch(x) then Link(Href(x), x) else Span(x)
  }

  /** `convertLinksToAnchors`: nothing for the empty text. */
  function ConvertLinks(text: string): seq<Part> {
    if text == [] then [] else Map(Kept(SplitPieces(text, 0, 0)), ToPart)
  }

  /** The React key of the part at position `i`: `link-i` or `text-i`. */
  function Key(parts: seq<Part>, i: nat): string
    requires i < |parts|
  {
    (if parts[i].Link? then "link-" else "text-") + NatToDecimal(i)
  }

  function Concat(xs: seq<string>): string {
    if xs == [] then [] else xs[0] + Concat(xs[1..])
  }

  function OptText(o: Option<string>): string {
    o.GetOr([])
  }

  function Texts(parts: seq<Part>): seq<string> {
    Map(parts, (part: Part) => part.text)
  }

  // ---------------------------------------------------------------------
  // The parts put back together give the text

  lemma {:induction false} ConcatAppend(a: seq<string>, b: seq<string>)
    ensures Concat(a + b) == Concat(a) + Concat(b)
  {
    if a != [] {
      assert (a + b)[1..] == a[1..] + b;
      ConcatAppend(a[1..], b);
    } else {
      assert a + b == b;
    }
  }

  lemma {:induction false} KeptAppend(a: seq<Option<string>>, b: seq<Option<string>>)
    ensures Kept(a + b) == Kept(a) + Kept(b)
  {
    if a != [] {
      assert (a + b)[1..] == a[1..] + b;
      KeptAppend(a[1..], b);
    } else {
      assert a + b == b;
    }
  }

  lemma KeptGroups(m: string)
    requires m != []
    ensures Kept(Groups(m)) == [m]
  {
    var g := Groups(m);
    assert g[1..][1..] == [];
    assert Kept(g[1..][1..]) == [];
    if m[0] == 'h' {
      assert g[1..] == [None];
    } else {
      assert g[1..] == [Some(m)];
    }
  }

  /** What a match contributes to the kept pieces: the text before it when
      not empty, then the match itself. */
  lemma KeptMatch(before: string, m: string, rest: seq<Option<string>>)
    requires m != []
    ensures Kept([Some(before)] + Groups(m) + rest) == (if before == [] then [] else [before]) + [m] + Kept(rest)
  {
    KeptAppend([Some(before)] + Groups(m), rest);
    KeptAppend([Some(before)], Groups(m));
    KeptOne(before);
    KeptGroups(m);
  }

  lemma KeptOne(x: string)
    ensures Kept([Some(x)]) == if x == [] then [] else [x]
  {
    assert [Some(x)][1..] == [];
  }

  /** The kept pieces from position `q` on spell out the text from `p` on. */
  lemma {:induction false} SplitSpells(s: string, p: nat, q: nat)
    requires p <= q <= |s|
    ensures Concat(Kept(SplitPieces(s, p, q))) == s[p..]
    decreases |s| - q
  {
    if q == |s| {
      KeptOne(s[p..]);
      assert Concat([]) == [];
      assert Concat([s[p..]]) == s[p..] + Concat([]);
    } else if PrefixLen(s[q..]) > 0 {
      var e := MatchEnd(s, q);
      SplitSpells(s, e, e);
      SplitMatchSpells(s, p, q, e);
    } else {
      SplitSpells(s, p, q + 1);
    }
  }

  lemma SplitMatchSpells(s: string, p: nat, q: nat, e: nat)
    requires p <= q < e <= |s|
    requires Concat(Kept(SplitPieces(s, e, e))) == s[e..]
    ensures Concat(Kept([Some(s[p..q])] + Groups(s[q..e]) + SplitPieces(s, e, e))) == s[p..]
  {
    ConcatMatch(s[p..q], s[q..e], SplitPieces(s, e, e));
    SliceThree(s, p, q, e);
  }

  lemma ConcatMatch(before: string, m: string, rest: seq<Option<string>>)
    requires m != []
    ensures Concat(Kept([Some(before)] + Groups(m) + rest)) == before + m + Concat(Kept(rest))
  {
    KeptMatch(before, m, rest);
    var front: seq<string> := if before == [] then [] else [before];
    ConcatAppend(front + [m], Kept(rest));
    ConcatAppend(front, [m]);
    ConcatOne(m);
    if before != [] {
      ConcatOne(before);
    } else {
      assert Concat(front) == [];
    }
  }

  lemma ConcatOne(x: string)
    ensures Concat([x]) == x
  {
    assert [x][1..] == [];
  }

  lemma {:induction false} TextsConcat(xs: seq<string>)
    ensures Texts(Map(xs, ToPart)) == xs
  {
    assert forall i :: 0 <= i < |xs| ==> ToPart(xs[i]).text == xs[i];
  }

  /** Joining the texts of the parts gives back the input, and no part is empty. */
  lemma ConvertLinksSpells(text: string)
    ensures Concat(Texts(ConvertLinks(text))) == text
    ensures forall i :: 0 <= i < |ConvertLinks(text)| ==> ConvertLinks(text)[i].text != []
  {
    if text != [] {
      var kept := Kept(SplitPieces(text, 0, 0));
      SplitSpells(text, 0, 0);
      TextsConcat(kept);
      assert text[0..] == text;
    } else {
      assert Concat([]) == [];
    }
  }

  // ---------------------------------------------------------------------
  // Links are the matches, spans hold none

  /** A URL as the pattern captures it: one of the three openings, and no white space. */
  predicate IsUrl(t: string) {
    (StartsWith(t, "https://") || StartsWith(t, "http://") || StartsWith(t, "www.")) && NoSpace(t)
  }

  /** A match that starts in a stretch of the text starts at the same place in the whole text. */
  lemma PrefixLenExtend(t: string, u: string)
    requires |t| <= |u| && t == u[..|t|]
    ensures PrefixLen(t) > 0 ==> PrefixLen(u) > 0
  {
    var k := PrefixLen(t);
    if k > 0 {
      assert u[k] == t[k];
      assert u[..k] == t[..k];
    }
  }

  /** A piece between matches holds no match. */
  lemma BetweenNoMatch(s: string, p: nat, q: nat)
    requires p <= q <= |s| && NoMatchBetween(s, p, q)
    ensures !HasMatch(s[p..q])
  {
    var x := s[p..q];
    forall j | 0 <= j < |x| ensures PrefixLen(x[j..]) == 0 {
      assert x[j..] == s[p + j..][..|x[j..]|];
      PrefixLenExtend(x[j..], s[p + j..]);
    }
  }

  lemma OpeningsNoSpace()
    ensures NoSpace("https://") && NoSpace("http://") && NoSpace("www.")
  {
  }

  /** A match is a URL, and the pattern finds it again in the piece alone. */
  lemma MatchIsUrl(s: string, q: nat)
    requires q < |s| && PrefixLen(s[q..]) > 0
    ensures IsUrl(s[q..MatchEnd(s, q)]) && HasMatch(s[q..MatchEnd(s, q)])
  {
    var k, e := PrefixLen(s[q..]), MatchEnd(s, q);
    var m := s[q..e];
    assert m[..k] == s[q..][..k];
    assert m[k] == s[q..][k];
    OpeningsNoSpace();
    forall j | 0 <= j < |m| ensures !IsSpace(m[j]) {
      if j < k {
        assert m[j] == s[q..][..k][j];
      } else {
        assert m[j] == s[q + j];
      }
    }
    assert m[0..] == m;
  }

  /** Every kept piece is either a URL with a match, or a piece with none. */
  predicate WellSplit(xs: seq<string>) {
    forall i :: 0 <= i < |xs| ==> (HasMatch(xs[i]) ==> IsUrl(xs[i]))
  }

  lemma WellSplitAppend(a: seq<string>, b: seq<string>)
    requires WellSplit(a) && WellSplit(b)
    ensures WellSplit(a + b)
  {
  }

  lemma WellMatch(before: string, m: string, rest: seq<Option<string>>)
    requires m != [] && !HasMatch(before) && IsUrl(m) && WellSplit(Kept(rest))
    ensures WellSplit(Kept([Some(before)] + Groups(m) + rest))
  {
    KeptMatch(before, m, rest);
    var front: seq<string> := if before == [] then [] else [before];
    WellSplitAppend(front, [m]);
    WellSplitAppend(front + [m], Kept(rest));
  }

  lemma {:induction false} SplitWell(s: string, p: nat, q: nat)
    requires p <= q <= |s| && NoMatchBetween(s, p, q)
    ensures WellSplit(Kept(SplitPieces(s, p, q)))
    decreases |s| - q
  {
    if q == |s| {
      KeptOne(s[p..]);
      BetweenNoMatch(s, p, q);
      assert s[p..q] == s[p..];
    } else if PrefixLen(s[q..]) > 0 {
      var e := MatchEnd(s, q);
      SplitWell(s, e, e);
      BetweenNoMatch(s, p, q);
      MatchIsUrl(s, q);
      WellMatch(s[p..q], s[q..e], SplitPieces(s, e, e));
    } else {
      SplitWell(s, p, q + 1);
    }
  }

  /** Each link's text is a URL: `http://`, `https://` or `www.` and no
      white space; its target adds `https://` to a `www.` text and is the
      text itself otherwise. Each span holds no match. */
  lemma ConvertLinksShape(text: string, i: nat)
    requires i < |ConvertLinks(text)|
    ensures ConvertLinks(text)[i].Link? ==> IsUrl(ConvertLinks(text)[i].text)
    ensures ConvertLinks(text)[i].Link? ==>
      (ConvertLinks(text)[i].href ==
         if StartsWith(ConvertLinks(text)[i].text, "www.") then "https://" + ConvertLinks(text)[i].text
         else ConvertLinks(text)[i].text)
    ensures ConvertLinks(text)[i].Span? ==> !HasMatch(ConvertLinks(text)[i].text)
  {
    SplitWell(text, 0, 0);
  }

  // ---------------------------------------------------------------------
  // A link ends at white space or at the end of the text

  /** The first kept piece from a position where no match starts begins there. */
  lemma {:induction false} FirstKept(s: string, p: nat, q: nat)
    requires p <= q <= |s| && p < |s| && NoMatchBetween(s, p, q)
    requires p < q || PrefixLen(s[p..]) == 0
    ensures Kept(SplitPieces(s, p, q)) != [] && Kept(SplitPieces(s, p, q))[0][0] == s[p]
    decreases |s| - q
  {
    if q == |s| {
      KeptOne(s[p..]);
    } else if PrefixLen(s[q..]) > 0 {
      FirstKeptAtMatch(s, p, q, MatchEnd(s, q));
    } else {
      NoMatchExtend(s, p, q);
      FirstKept(s, p, q + 1);
    }
  }

  /** A match after some text: that text is the first kept piece. */
  lemma FirstKeptAtMatch(s: string, p: nat, q: nat, e: nat)
    requires p < q < |s| && PrefixLen(s[q..]) > 0 && e == MatchEnd(s, q)
    ensures Kept(SplitPieces(s, p, q)) != [] && Kept(SplitPieces(s, p, q))[0][0] == s[p]
  {
    SplitTake(s, p, q, e);
    KeptMatch(s[p..q], s[q..e], SplitPieces(s, e, e));
    assert s[p..q] != [] && s[p..q][0] == s[p];
  }

  /** A position where no match starts extends the match-free stretch. */
  lemma NoMatchExtend(s: string, p: nat, q: nat)
    requires p <= q < |s| && NoMatchBetween(s, p, q) && PrefixLen(s[q..]) == 0
    ensures NoMatchBetween(s, p, q + 1)
  {
  }

  /** After a URL, the next piece starts with white space. */
  predicate SpaceAfterUrls(xs: seq<string>) {
    forall i :: 0 <= i < |xs| - 1 ==> (HasMatch(xs[i]) ==> xs[i + 1] != [] && IsSpace(xs[i + 1][0]))
  }

  /** No match starts on white space. */
  lemma NoMatchOnSpace(s: string, e: nat)
    requires e < |s| && IsSpace(s[e])
    ensures PrefixLen(s[e..]) == 0
  {
    assert s[e..][0] == s[e];
  }

  lemma {:induction false} SplitSpaced(s: string, p: nat, q: nat)
    requires p <= q <= |s| && NoMatchBetween(s, p, q)
    ensures SpaceAfterUrls(Kept(SplitPieces(s, p, q)))
    decreases |s| - q
  {
    if q == |s| {
      KeptOne(s[p..]);
    } else if PrefixLen(s[q..]) > 0 {
      var e := MatchEnd(s, q);
      SplitSpaced(s, e, e);
      BetweenNoMatch(s, p, q);
      SplitWell(s, e, e);
      if e < |s| {
        NoMatchOnSpace(s, e);
        FirstKept(s, e, e);
      } else {
        KeptOne(s[e..]);
        assert s[e..] == [];
      }
      SplitSpacedStep(s, p, q, e);
    } else {
      SplitSpaced(s, p, q + 1);
    }
  }

  lemma SplitSpacedStep(s: string, p: nat, q: nat, e: nat)
    requires p <= q < e <= |s| && !HasMatch(s[p..q]) && s[q..e] != []
    requires SpaceAfterUrls(Kept(SplitPieces(s, e, e)))
    requires Kept(SplitPieces(s, e, e)) != [] ==> IsSpace(Kept(SplitPieces(s, e, e))[0][0])
    ensures SpaceAfterUrls(Kept([Some(s[p..q])] + Groups(s[q..e]) + SplitPieces(s, e, e)))
  {
    var before, m, rest := s[p..q], s[q..e], Kept(SplitPieces(s, e, e));
    KeptMatch(before, m, SplitPieces(s, e, e));
    var front: seq<string> := if before == [] then [] else [before];
    var xs := front + [m] + rest;
    var n := |front|;
    assert n == 0 || xs[0] == before;
    forall i | 0 <= i < |xs| - 1 && HasMatch(xs[i]) ensures xs[i + 1] != [] && IsSpace(xs[i + 1][0]) {
      if i > n {
        assert xs[i] == rest[i - n - 1] && xs[i + 1] == rest[i - n];
      } else if i == n {
        assert xs[i + 1] == rest[0];
      }
    }
  }

  /** A link is the last part, or the next part starts with white space:
      the match took every character up to the white space. */
  lemma ConvertLinksSpaceAfter(text: string, i: nat)
    requires i + 1 < |ConvertLinks(text)| && ConvertLinks(text)[i].Link?
    ensures ConvertLinks(text)[i + 1].text != [] && IsSpace(ConvertLinks(text)[i + 1].text[0])
  {
    var kept := Kept(SplitPieces(text, 0, 0));
    SplitSpaced(text, 0, 0);
    assert ConvertLinks(text)[i] == ToPart(kept[i]);
    assert ConvertLinks(text)[i + 1] == ToPart(kept[i + 1]);
  }

  // ---------------------------------------------------------------------
  // Keys

  /** A key is `link-` for an anchor and `text-` for a span, followed by
      the part's position in decimal; so two parts never share a key. */
  lemma KeysDistinct(parts: seq<Part>, i: nat, j: nat)
    requires i < |parts| && j < |parts| && i != j
    ensures Key(parts, i)[..5] == if parts[i].Link? then "link-" else "text-"
    ensures AllDigits(Key(parts, i)[5..], 10) && RadixValue(Key(parts, i)[5..], 10) == i
    ensures Key(parts, i) != Key(parts, j)
  {
    var a, b := Key(parts, i), Key(parts, j);
    assert a[5..] == NatToDecimal(i) && b[5..] == NatToDecimal(j);
    DecimalRoundTrip(i);
    if a == b {
      DecimalInjective(i, j);
    }
  }

  /** No match starts at a character other than `h` or `w`. */
  lemma NoOpening(t: string)
    requires t != [] && t[0] != 'h' && t[0] != 'w'
    ensures PrefixLen(t) == 0
  {
    assert "https://"[0] == 'h' && "http://"[0] == 'h' && "www."[0] == 'w';
  }

  lemma ExamplePrefixes()
    ensures PrefixLen("see www.a") == 0 && PrefixLen("ee www.a") == 0
    ensures PrefixLen("e www.a") == 0 && PrefixLen(" www.a") == 0
    ensures PrefixLen("www.a") == 4
  {
    NoOpening("see www.a");
    NoOpening("ee www.a");
    NoOpening("e www.a");
    NoOpening(" www.a");
  }

  /** Where no match starts, the scan moves one character on. */
  lemma SplitSkip(s: string, p: nat, q: nat)
    requires p <= q < |s| && PrefixLen(s[q..]) == 0
    ensures SplitPieces(s, p, q) == SplitPieces(s, p, q + 1)
  {
  }

  /** A match emits the text before it and its groups. */
  lemma SplitTake(s: string, p: nat, q: nat, e: nat)
    requires p <= q < |s| && PrefixLen(s[q..]) > 0 && e == MatchEnd(s, q)
    ensures SplitPieces(s, p, q) == [Some(s[p..q])] + Groups(s[q..e]) + SplitPieces(s, e, e)
  {
  }

  lemma ExampleSlices(s: string)
    requires s == "see www.a"
    ensures s[0..] == "see www.a" && s[1..] == "ee www.a" && s[2..] == "e www.a"
    ensures s[3..] == " www.a" && s[4..] == "www.a"
    ensures s[0..4] == "see " && s[4..9] == "www.a" && s[9..] == ""
  {
  }

  lemma ExampleMatchEnd(s: string)
    requires s == "see www.a"
    ensures PrefixLen(s[4..]) == 4 && MatchEnd(s, 4) == 9
  {
    ExampleSlices(s);
    ExamplePrefixes();
    assert NonSpaceRun(s, 9) == 0;
    assert NonSpaceRun(s, 8) == 1;
  }

  lemma ExamplePieces()
    ensures SplitPieces("see www.a", 0, 0) == [Some("see "), None, Some("www.a"), Some("")]
  {
    ExamplePiecesOf("see www.a");
  }

  lemma ExamplePiecesOf(s: string)
    requires s == "see www.a"
    ensures SplitPieces(s, 0, 0) == [Some("see "), None, Some("www.a"), Some("")]
  {
    ExampleSkips(s);
    ExampleTake(s);
  }

  /** No match starts in the first four characters. */
  lemma ExampleSkips(s: string)
    requires s == "see www.a"
    ensures SplitPieces(s, 0, 0) == SplitPieces(s, 0, 4)
  {
    ExampleSlices(s);
    ExamplePrefixes();
    SplitSkip(s, 0, 0);
    SplitSkip(s, 0, 1);
    SplitSkip(s, 0, 2);
    SplitSkip(s, 0, 3);
  }

  /** The match at position 4 ends the text. */
  lemma ExampleTake(s: string)
    requires s == "see www.a"
    ensures SplitPieces(s, 0, 4) == [Some("see "), None, Some("www.a"), Some("")]
  {
    ExampleMatchEnd(s);
    SplitTake(s, 0, 4, 9);
    ExampleSlices(s);
    var g := Groups(s[4..9]);
    assert g == [None, Some("www.a")];
    var tail := SplitPieces(s, 9, 9);
    assert tail == [Some("")];
  }

  lemma ExampleKept()
    ensures Kept([Some("see "), None, Some("www.a"), Some("")]) == ["see ", "www.a"]
  {
    var pieces := [Some("see "), None, Some("www.a"), Some("")];
    assert pieces[1..] == [None, Some("www.a"), Some("")];
    assert pieces[1..][1..] == [Some("www.a"), Some("")];
    assert pieces[1..][1..][1..] == [Some("")];
    KeptOne("");
  }

  lemma ExampleParts()
    ensures Map(["see ", "www.a"], ToPart) == [Span("see "), Link("https://www.a", "www.a")]
  {
    ExamplePrefixes();
    assert "www.a"[0..] == "www.a";
    assert !HasMatch("see ");
    assert ToPart("see ") == Span("see ") && ToPart("www.a") == Link("https://www.a", "www.a");
  }

  /** A `www.` address after a word: the word stays text, the address
      becomes a link to its `https://` form. */
  lemma ConvertLinksExample()
    ensures ConvertLinks("see www.a") == [Span("see "), Link("https://www.a", "www.a")]
  {
    ExamplePieces();
    ExampleKept();
    ExampleParts();
    assert Kept(SplitPieces("see www.a", 0, 0)) == ["see ", "www.a"];
  }

  /** The empty text gives no part. */
  lemma ConvertLinksEmpty()
    ensures ConvertLinks("") == []
  {
  }
}
