/**
 The labeler's search for linked issues in a card body: the global regular expression

   (?<=-\s*\[.*?\].*?)(https?:\/{2}(?:[/-\w.]|(?:%[\da-fA-F]{2}))+)

 written out as a left-to-right scanner. A URL is `http://` or `https://` followed by as many
 path characters and `%XX` escapes as possible; it is taken only where the look-behind holds:
 somewhere before it a `-`, white space, a `[`, and then a `]`, with no line break from the `[`
 up to the URL. The look-behind is tracked by a small state machine (`Marker`) that is proved
 to agree with the declarative reading (`Lookbehind`).
 */
module ChecklistReferences {
  import opened Wrappers
  import opened JsText

  // ---------------------------------------------------------------------------------------
  // The URL part: https?:\/{2}(?:[/-\w.]|(?:%[\da-fA-F]{2}))+

  /** `[/-\w.]`: a slash, a hyphen, a word character (`\w`) or a dot. */
  predicate IsPathChar(c: char) {
    c == '/' || c == '-' || c == '.' || c == '_'
    || ('a' <= c <= 'z') || ('A' <= c <= 'Z') || ('0' <= c <= '9')
  }

  /** `[\da-fA-F]` */
  predicate IsHexDigit(c: char) {
    ('0' <= c <= '9') || ('a' <= c <= 'f') || ('A' <= c <= 'F')
  }

  /** A `%XX` escape starts at `j`. */
  predicate EscapeAt(s: string, j: nat) {
    j + 3 <= |s| && s[j] == '%' && IsHexDigit(s[j + 1]) && IsHexDigit(s[j + 2])
  }

  /** `u` is a sequence of path characters and `%XX` escapes. */
  predicate IsUnits(u: string)
    decreases |u|
  {
    u == []
    || (IsPathChar(u[0]) && IsUnits(u[1..]))
    || (|u| >= 3 && u[0] == '%' && IsHexDigit(u[1]) && IsHexDigit(u[2]) && IsUnits(u[3..]))
  }

  /** The greedy repetition: how far the path characters and escapes run from `j`. */
  function UnitsLen(s: string, j: nat): (n: nat)
    requires j <= |s|
    ensures j + n <= |s|
    decreases |s| - j
  {
    if j < |s| && IsPathChar(s[j]) then 1 + UnitsLen(s, j + 1)
    else if EscapeAt(s, j) then 3 + UnitsLen(s, j + 3)
    else 0
  }

  /** The run is made of path characters and escapes, and stops where neither follows. */
  lemma {:induction false} UnitsLenShape(s: string, j: nat)
    requires j <= |s|
    ensures var n := UnitsLen(s, j);
            IsUnits(s[j..j + n]) && (j + n < |s| ==> !IsPathChar(s[j + n]) && !EscapeAt(s, j + n))
    decreases |s| - j
  {
    var n := UnitsLen(s, j);
    if j < |s| && IsPathChar(s[j]) {
      UnitsLenShape(s, j + 1);
      assert s[j..j + n][1..] == s[j + 1..j + n];
    } else if EscapeAt(s, j) {
      UnitsLenShape(s, j + 3);
      assert s[j..j + n][3..] == s[j + 3..j + n];
    }
  }

  /**
   `https?:\/{2}` at `p`: `http`, an optional `s`, then `://`. The length taken is 8 for
   `https://`, 7 for `http://` and 0 when neither is there.
   */
  function SchemeLen(s: string, p: nat): (k: nat)
    requires p <= |s|
    ensures k == 0 || k == 7 || k == 8
  {
    if p + 4 <= |s| && s[p] == 'h' && s[p + 1] == 't' && s[p + 2] == 't' && s[p + 3] == 'p' then
      var q := if p + 4 < |s| && s[p + 4] == 's' then p + 5 else p + 4;
      if q + 3 <= |s| && s[q] == ':' && s[q + 1] == '/' && s[q + 2] == '/' then q + 3 - p else 0
    else 0
  }

  /** The optional `s` is taken when it is there: `https://` gives 8, `http://` gives 7, anything else 0. */
  lemma SchemeShape(s: string, p: nat)
    requires p <= |s|
    ensures SchemeLen(s, p) == 8 <==> p + 8 <= |s| && s[p..p + 8] == "https://"
    ensures SchemeLen(s, p) == 7 <==> p + 7 <= |s| && s[p..p + 7] == "http://"
  {
    if p + 8 <= |s| {
      HttpsText(s, p);
    }
    if p + 7 <= |s| {
      HttpText(s, p);
    }
  }

  lemma HttpsText(s: string, p: nat)
    requires p + 8 <= |s|
    ensures s[p..p + 8] == "https://" <==>
              && s[p] == 'h' && s[p + 1] == 't' && s[p + 2] == 't' && s[p + 3] == 'p'
              && s[p + 4] == 's' && s[p + 5] == ':' && s[p + 6] == '/' && s[p + 7] == '/'
  {
    var t := s[p..p + 8];
    assert t[0] == s[p] && t[1] == s[p + 1] && t[2] == s[p + 2] && t[3] == s[p + 3];
    assert t[4] == s[p + 4] && t[5] == s[p + 5] && t[6] == s[p + 6] && t[7] == s[p + 7];
  }

  lemma HttpText(s: string, p: nat)
    requires p + 7 <= |s|
    ensures s[p..p + 7] == "http://" <==>
              && s[p] == 'h' && s[p + 1] == 't' && s[p + 2] == 't' && s[p + 3] == 'p'
              && s[p + 4] == ':' && s[p + 5] == '/' && s[p + 6] == '/'
  {
    var t := s[p..p + 7];
    assert t[0] == s[p] && t[1] == s[p + 1] && t[2] == s[p + 2] && t[3] == s[p + 3];
    assert t[4] == s[p + 4] && t[5] == s[p + 5] && t[6] == s[p + 6];
  }

  /** Length of the URL the capture group matches at `p`, or 0 when it matches nothing there. */
  function UrlLen(s: string, p: nat): (n: nat)
    requires p <= |s|
    ensures p + n <= |s|
  {
    var k := SchemeLen(s, p);
    if k == 0 then 0
    else
      var m := UnitsLen(s, p + k);
      if m == 0 then 0 else k + m
  }

  /**
   A URL is `http://` or `https://`, then at least one path character or escape, and it is as
   long as it can be: the next character neither is a path character nor starts an escape.
   No URL is matched where the scheme is missing or nothing follows it.
   */
  lemma UrlShape(s: string, p: nat)
    requires p <= |s|
    ensures var n, k := UrlLen(s, p), SchemeLen(s, p);
            n > 0 <==> k > 0 && UnitsLen(s, p + k) > 0
    ensures var n, k := UrlLen(s, p), SchemeLen(s, p);
            n > 0 ==> && (s[p..p + k] == "http://" || s[p..p + k] == "https://")
                      && k < n && IsUnits(s[p + k..p + n])
                      && (p + n < |s| ==> !IsPathChar(s[p + n]) && !EscapeAt(s, p + n))
  {
    SchemeShape(s, p);
    var k := SchemeLen(s, p);
    if k > 0 {
      UnitsLenShape(s, p + k);
    }
  }

  // ---------------------------------------------------------------------------------------
  // The look-behind: -\s*\[.*?\].*?

  /** `s[q]` is a `-` followed only by white space up to `a`. */
  ghost predicate DashRun(s: string, q: nat, a: nat) {
    q < a <= |s| && s[q] == '-' && forall k :: q < k < a ==> IsWhitespace(s[k])
  }

  /** No line terminator strictly between `a` and `p` (what `.` may cross). */
  ghost predicate NoBreak(s: string, a: nat, p: nat) {
    forall k :: a < k < p && k < |s| ==> !IsLineTerminator(s[k])
  }

  /** A `[` at `a` with a dash run before it and no line break from it up to `p`. */
  ghost predicate OpenAt(s: string, a: nat, p: nat) {
    a < p <= |s| && s[a] == '[' && (exists q: nat :: DashRun(s, q, a)) && NoBreak(s, a, p)
  }

  /** The look-behind holds at `p`: an open bracket, then a `]`, both before `p` on the same line as `p`. */
  ghost predicate Lookbehind(s: string, p: nat) {
    exists a: nat, b: nat :: a < b < p && OpenAt(s, a, p) && s[b] == ']'
  }

  /**
   What the scanner remembers of the text before a position: whether it ends in a dash run,
   whether a bracket has been opened after one on the current line, and whether it has been
   closed since.
   */
  datatype Marker = Marker(dash: bool, open: bool, closed: bool)

  function Step(m: Marker, c: char): Marker {
    Marker(
      c == '-' || (m.dash && IsWhitespace(c)),
      (c == '[' && m.dash) || (m.open && !IsLineTerminator(c)),
      (c == ']' && m.open) || (m.closed && !IsLineTerminator(c)))
  }

  /** The marker after reading `s[..p]`. */
  function MarkerAt(s: string, p: nat): Marker
    requires p <= |s|
  {
    if p == 0 then Marker(false, false, false) else Step(MarkerAt(s, p - 1), s[p - 1])
  }

  lemma {:induction false} DashMeaning(s: string, p: nat)
    requires p <= |s|
    ensures MarkerAt(s, p).dash <==> exists q: nat :: DashRun(s, q, p)
  {
    if p > 0 {
      DashMeaning(s, p - 1);
      var c := s[p - 1];
      if MarkerAt(s, p).dash {
        if c == '-' {
          assert DashRun(s, p - 1, p);
        } else {
          var q: nat :| DashRun(s, q, p - 1);
          assert DashRun(s, q, p);
        }
      }
      if exists q: nat :: DashRun(s, q, p) {
        var q: nat :| DashRun(s, q, p);
        if q < p - 1 {
          assert DashRun(s, q, p - 1);
          assert IsWhitespace(c);
        }
      }
    }
  }

  lemma {:induction false} OpenMeaning(s: string, p: nat)
    requires p <= |s|
    ensures MarkerAt(s, p).open <==> exists a: nat :: OpenAt(s, a, p)
  {
    if p > 0 {
      OpenMeaning(s, p - 1);
      DashMeaning(s, p - 1);
      var c := s[p - 1];
      if MarkerAt(s, p).open {
        if c == '[' && MarkerAt(s, p - 1).dash {
          assert OpenAt(s, p - 1, p);
        } else {
          var a: nat :| OpenAt(s, a, p - 1);
          assert OpenAt(s, a, p);
        }
      }
      if exists a: nat :: OpenAt(s, a, p) {
        var a: nat :| OpenAt(s, a, p);
        if a < p - 1 {
          assert OpenAt(s, a, p - 1);
          assert !IsLineTerminator(c);
        }
      }
    }
  }

  /** The state machine agrees with the look-behind at every position. */
  lemma {:induction false} ClosedMeaning(s: string, p: nat)
    requires p <= |s|
    ensures MarkerAt(s, p).closed <==> Lookbehind(s, p)
  {
    if p > 0 {
      ClosedMeaning(s, p - 1);
      OpenMeaning(s, p - 1);
      var c := s[p - 1];
      if MarkerAt(s, p).closed {
        if c == ']' && MarkerAt(s, p - 1).open {
          var a: nat :| OpenAt(s, a, p - 1);
          assert OpenAt(s, a, p);
          assert a < p - 1 < p && s[p - 1] == ']';
        } else {
          var a: nat, b: nat :| a < b < p - 1 && OpenAt(s, a, p - 1) && s[b] == ']';
          assert OpenAt(s, a, p);
        }
      }
      if Lookbehind(s, p) {
        var a: nat, b: nat :| a < b < p && OpenAt(s, a, p) && s[b] == ']';
        assert OpenAt(s, a, p - 1);
        if b < p - 1 {
          assert !IsLineTerminator(c);
        }
      }
    }
  }

  // ---------------------------------------------------------------------------------------
  // ---------------------------------------------------------------------------------------
  // The global search

  /** A match: the URL occupies `s[start..end]`. */
  datatype Span = Span(start: nat, end: nat)

  /**
   How much the search takes when it tries position `p`: the URL there when the look-behind
   holds (see `HitLenMeaning`), otherwise nothing.
   */
  function HitLen(s: string, p: nat): (n: nat)
    requires p < |s|
    ensures p + n <= |s|
  {
    if MarkerAt(s, p).closed then UrlLen(s, p) else 0
  }

  /** A match is taken at `p` exactly where a URL starts and the look-behind holds, and it is the whole URL. */
  lemma HitLenMeaning(s: string, p: nat)
    requires p < |s|
    ensures HitLen(s, p) > 0 <==> UrlLen(s, p) > 0 && Lookbehind(s, p)
    ensures HitLen(s, p) > 0 ==> HitLen(s, p) == UrlLen(s, p)
  {
    ClosedMeaning(s, p);
  }

  /** No match runs past the end of the text. */
  predicate Fits(h: seq<nat>) {
    forall p :: 0 <= p < |h| ==> p + h[p] <= |h|
  }

  /** The match length at every position of `s`. */
  function Hits(s: string): (h: seq<nat>)
    ensures |h| == |s| && Fits(h)
  {
    seq(|s|, p requires 0 <= p < |s| => HitLen(s, p))
  }

  /**
   The global search from `p`, given the match length `h[q]` at each position `q`: the first
   position with a match gives it, and the search goes on where that match ended (the
   `lastIndex` of a global regular expression). Every match lies in the text after `p`.
   */
  function Scan(h: seq<nat>, p: nat): (r: seq<Span>)
    requires p <= |h| && Fits(h)
    ensures forall i :: 0 <= i < |r| ==> p <= r[i].start < r[i].end <= |h|
    decreases |h| - p
  {
    if p == |h| then []
    else if h[p] > 0 then [Span(p, p + h[p])] + Scan(h, p + h[p])
    else Scan(h, p + 1)
  }

  /** All matches of the expression in `s`, in the order the search finds them. */
  function Matches(s: string): (r: seq<Span>)
    ensures forall i :: 0 <= i < |r| ==> r[i].start < r[i].end <= |s|
  {
    Scan(Hits(s), 0)
  }

  /** `body?.match(...) || []`: the matched URLs, in order; no body gives none. */
  function References(body: Option<string>): (refs: seq<string>)
    ensures body.None? ==> refs == []
    ensures body.Some? ==> |refs| == |Matches(body.value)|
  {
    match body
    case None => []
    case Some(s) =>
      var spans := Matches(s);
      seq(|spans|, i requires 0 <= i < |spans| => s[spans[i].start..spans[i].end])
  }

  // ---------------------------------------------------------------------------------------
  // The search on its own: order, lengths, coverage

  /** Each match ends no later than the next one starts. */
  predicate Ordered(r: seq<Span>) {
    forall i :: 0 < i < |r| ==> r[i - 1].end <= r[i].start
  }

  lemma OrderedCons(sp: Span, r: seq<Span>)
    requires Ordered(r) && (r != [] ==> sp.end <= r[0].start)
    ensures Ordered([sp] + r)
  {
    var t := [sp] + r;
    forall i | 0 < i < |t| ensures t[i - 1].end <= t[i].start {
      assert t[i] == r[i - 1];
      if i > 1 {
        assert t[i - 1] == r[i - 2];
      }
    }
  }

  /** The matches are in order of appearance and never overlap. */
  lemma {:induction false} ScanOrdered(h: seq<nat>, p: nat)
    requires p <= |h| && Fits(h)
    ensures Ordered(Scan(h, p))
    decreases |h| - p
  {
    if p < |h| {
      if h[p] > 0 {
        ScanOrdered(h, p + h[p]);
        OrderedCons(Span(p, p + h[p]), Scan(h, p + h[p]));
      } else {
        ScanOrdered(h, p + 1);
      }
    }
  }

  /** Every match is as long as the match length at its start, which is positive. */
  lemma {:induction false} ScanSpans(h: seq<nat>, p: nat, i: nat)
    requires p <= |h| && Fits(h) && i < |Scan(h, p)|
    ensures var sp := Scan(h, p)[i]; h[sp.start] == sp.end - sp.start > 0
    decreases |h| - p
  {
    assert p < |h|;
    if h[p] > 0 {
      if i > 0 {
        ScanSpans(h, p + h[p], i - 1);
        assert Scan(h, p)[i] == Scan(h, p + h[p])[i - 1];
      }
    } else {
      ScanSpans(h, p + 1, i);
    }
  }

  /** Position `x` lies inside one of the matches. */
  ghost predicate Covered(r: seq<Span>, x: nat) {
    exists i :: 0 <= i < |r| && r[i].start <= x < r[i].end
  }

  /** A position covered by later matches stays covered when a match is put in front. */
  lemma CoveredCons(sp: Span, r: seq<Span>, x: nat)
    requires Covered(r, x)
    ensures Covered([sp] + r, x)
  {
    var j :| 0 <= j < |r| && r[j].start <= x < r[j].end;
    assert ([sp] + r)[j + 1] == r[j];
  }

  /** Every position with a match lies in one of the matches found (at its start, or inside an earlier one). */
  lemma {:induction false} ScanCovers(h: seq<nat>, p: nat, x: nat)
    requires Fits(h) && p <= x < |h| && h[x] > 0
    ensures Covered(Scan(h, p), x)
    decreases |h| - p
  {
    if h[p] > 0 {
      var sp, rest := Span(p, p + h[p]), Scan(h, p + h[p]);
      if x < p + h[p] {
        assert Scan(h, p)[0] == sp;
      } else {
        ScanCovers(h, p + h[p], x);
        CoveredCons(sp, rest, x);
      }
    } else {
      ScanCovers(h, p + 1, x);
    }
  }

  /** Where no position from `p` on has a match, the search finds nothing. */
  lemma {:induction false} ScanEmpty(h: seq<nat>, p: nat)
    requires p <= |h| && Fits(h)
    requires forall x :: p <= x < |h| ==> h[x] == 0
    ensures Scan(h, p) == []
    decreases |h| - p
  {
    if p < |h| {
      ScanEmpty(h, p + 1);
    }
  }

  // ---------------------------------------------------------------------------------------
  // What the search finds in a body

  /** Every match is a whole URL where the look-behind holds. */
  lemma ScanSound(s: string, i: nat)
    requires i < |Matches(s)|
    ensures var sp := Matches(s)[i];
            && Lookbehind(s, sp.start)
            && UrlLen(s, sp.start) == sp.end - sp.start > 0
  {
    ScanSpans(Hits(s), 0, i);
    HitLenMeaning(s, Matches(s)[i].start);
  }

  /** The matches of a body are in order and never overlap. */
  lemma MatchesOrdered(s: string)
    ensures Ordered(Matches(s))
  {
    ScanOrdered(Hits(s), 0);
  }

  /**
   Nothing is missed: every position where a URL starts and the look-behind holds lies in a
   match (at its start, or inside a longer URL matched earlier).
   */
  lemma ScanComplete(s: string, x: nat)
    requires x < |s| && UrlLen(s, x) > 0 && Lookbehind(s, x)
    ensures Covered(Matches(s), x)
  {
    HitLenMeaning(s, x);
    ScanCovers(Hits(s), 0, x);
  }

  /** The search finds nothing from `p` on when no position there has both a URL and the look-behind. */
  lemma NothingToFind(s: string, p: nat)
    requires p <= |s|
    requires forall x :: p <= x < |s| ==> UrlLen(s, x) == 0 || !Lookbehind(s, x)
    ensures Scan(Hits(s), p) == []
  {
    forall x | p <= x < |s| ensures Hits(s)[x] == 0 {
      HitLenMeaning(s, x);
    }
    ScanEmpty(Hits(s), p);
  }

  /** A body with no `[` has no reference: a bare URL is never taken. */
  lemma NoBracketNoReferences(s: string)
    requires '[' !in s
    ensures References(Some(s)) == []
  {
    NothingToFind(s, 0);
  }

  /** The text of a URL match is `http://` or `https://` followed by at least one path character or escape. */
  lemma UrlText(s: string, p: nat, e: nat)
    requires p < e <= |s| && UrlLen(s, p) == e - p
    ensures var u := s[p..e];
            || ("https://" <= u && |u| > 8 && IsUnits(u[8..]))
            || ("http://" <= u && |u| > 7 && IsUnits(u[7..]))
  {
    UrlShape(s, p);
    var k := SchemeLen(s, p);
    assert s[p..e][..k] == s[p..p + k];
    assert s[p..e][k..] == s[p + k..e];
  }

  /** The `i`-th reference is the text of the `i`-th match. */
  lemma ReferenceAt(body: string, i: nat)
    requires i < |References(Some(body))|
    ensures var sp := Matches(body)[i];
            References(Some(body))[i] == body[sp.start..sp.end]
  {
  }

  /** Each reference is `http://` or `https://` followed by at least one path character or escape. */
  lemma ReferenceShape(body: string, i: nat)
    requires i < |References(Some(body))|
    ensures var u := References(Some(body))[i];
            || ("https://" <= u && |u| > 8 && IsUnits(u[8..]))
            || ("http://" <= u && |u| > 7 && IsUnits(u[7..]))
  {
    ReferenceAt(body, i);
    ScanSound(body, i);
    var sp := Matches(body)[i];
    UrlText(body, sp.start, sp.end);
  }

  /** No URL starts at a character other than `h`. */
  lemma NoUrlAt(s: string, p: nat)
    requires p < |s| && s[p] != 'h'
    ensures UrlLen(s, p) == 0
  {
  }

  /** A line break ends the look-behind: after it, a URL needs a new `[` on its own line. */
  lemma LineBreakResets(s: string, t: nat, p: nat)
    requires t < p <= |s| && IsLineTerminator(s[t])
    requires forall k :: t < k < p ==> s[k] != '['
    ensures !Lookbehind(s, p)
  {
    if Lookbehind(s, p) {
      var a: nat, b: nat :| a < b < p && OpenAt(s, a, p) && s[b] == ']';
      assert false;
    }
  }

  // ---------------------------------------------------------------------------------------
  // An example

  /** The two-line body of the example below: a checklist item with a link, then a bare link. */
  const ItemMarker: string := "- [ ] "
  const FirstLink: string := "https://x/1"
  const SecondLine: string := "\nsee https://x/2"
  const TwoLineBody: string := ItemMarker + FirstLink + SecondLine

  /** The three parts of a concatenation are its slices. */
  lemma ConcatParts<T>(u: seq<T>, v: seq<T>, w: seq<T>)
    ensures var s := u + v + w;
            s[..|u|] == u && s[|u|..|u| + |v|] == v && s[|u| + |v|..] == w
  {
  }

  lemma ExampleParts(body: string)
    requires body == TwoLineBody
    ensures |body| == 33 && body[..6] == ItemMarker && body[6..17] == FirstLink && body[17..] == SecondLine
  {
    ConcatParts(ItemMarker, FirstLink, SecondLine);
  }

  lemma ExampleLeading(body: string)
    requires body == TwoLineBody
    ensures Scan(Hits(body), 0) == Scan(Hits(body), 6)
  {
    ExampleParts(body);
    var h := Hits(body);
    forall p | 0 <= p < 6 ensures h[p] == 0 {
      assert body[p] == ItemMarker[p];
      NoUrlAt(body, p);
    }
    assert Scan(h, 0) == Scan(h, 1) == Scan(h, 2) == Scan(h, 3) == Scan(h, 4) == Scan(h, 5) == Scan(h, 6);
  }

  lemma ExampleMarker(body: string)
    requires body == TwoLineBody
    ensures MarkerAt(body, 6).closed
  {
    ExampleParts(body);
    assert forall k :: 0 <= k < 6 ==> body[k] == ItemMarker[k];
    assert body[0] == '-' && body[1] == ' ' && body[2] == '[' && body[3] == ' ' && body[4] == ']' && body[5] == ' ';
    assert MarkerAt(body, 1) == Marker(true, false, false);
    assert MarkerAt(body, 2) == Marker(true, false, false);
    assert MarkerAt(body, 3) == Marker(false, true, false);
    assert MarkerAt(body, 4) == Marker(false, true, false);
    assert MarkerAt(body, 5) == Marker(false, true, true);
    assert MarkerAt(body, 6) == Marker(false, true, true);
  }

  lemma ExampleFirstUrl(body: string)
    requires body == TwoLineBody
    ensures UrlLen(body, 6) == 11 && body[6..17] == "https://x/1"
  {
    ExampleParts(body);
    assert forall k :: 0 <= k < 11 ==> body[6 + k] == FirstLink[k];
    assert body[6] == 'h' && body[7] == 't' && body[8] == 't' && body[9] == 'p';
    assert body[10] == 's' && body[11] == ':' && body[12] == '/' && body[13] == '/';
    assert SchemeLen(body, 6) == 8;
    assert body[14] == 'x' && body[15] == '/' && body[16] == '1';
    assert body[17] == SecondLine[0] == '\n';
    assert UnitsLen(body, 17) == 0;
    assert UnitsLen(body, 16) == 1;
    assert UnitsLen(body, 15) == 2;
    assert UnitsLen(body, 14) == 3;
  }

  lemma ExampleSecondLine(body: string)
    requires body == TwoLineBody
    ensures Scan(Hits(body), 17) == []
  {
    ExampleParts(body);
    assert body[17] == SecondLine[0] == '\n';
    forall x | 17 <= x < |body| ensures UrlLen(body, x) == 0 || !Lookbehind(body, x) {
      if x == 17 {
        NoUrlAt(body, x);
      } else {
        forall k | 17 < k < x ensures body[k] != '[' {
          assert body[k] == SecondLine[k - 17];
        }
        LineBreakResets(body, 17, x);
      }
    }
    NothingToFind(body, 17);
  }

  /**
   A link in a checklist item is taken; a link on the next line, after the line break and with
   no bracket of its own, is not.
   */
  lemma ExampleChecklist(body: string)
    requires body == TwoLineBody
    ensures References(Some(body)) == ["https://x/1"]
  {
    ExampleLeading(body);
    ExampleMarker(body);
    ExampleFirstUrl(body);
    ExampleSecondLine(body);
    var h := Hits(body);
    assert h[6] == 11;
    assert Scan(h, 6) == [Span(6, 17)] + Scan(h, 17);
    assert Matches(body) == [Span(6, 17)];
  }

}
