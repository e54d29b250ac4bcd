/**
 The project reference labeler's two decisions: deriving a label name from a card title
 or board column (`cleanLabelName`), and deciding which labels to remove and add so that
 an issue carries only one label with a given prefix (`ensureOnlyLabel`). The labeler only
 reports these decisions; it changes no label.
 */
module ProjectReferenceLabeler {
  import opened Wrappers
  import opened JsText
  import opened Board

  /** The processor's default label prefixes. */
  const ColumnLabelPrefix: string := "> "
  const LinkedLabelPrefix: string := ">> "

  // ---------------------------------------------------------------------------------------
  // Removing parenthesised groups: replace(/\([^()]*\)/g, '')

  predicate IsParen(c: char) {
    c == '(' || c == ')'
  }

  /** Index of the first parenthesis in `s`, if any. */
  function FirstParen(s: string): (r: Option<nat>)
    ensures r.Some? ==> r.value < |s| && IsParen(s[r.value])
                        && forall k :: 0 <= k < r.value ==> !IsParen(s[k])
    ensures r.None? ==> forall k :: 0 <= k < |s| ==> !IsParen(s[k])
  {
    if s == [] then None
    else if IsParen(s[0]) then Some(0)
    else match FirstParen(s[1..])
      case None => None
      case Some(k) => Some(k + 1)
  }

  /** Length of a match of `\([^()]*\)` at the start of `s`, if there is one. */
  function ParenGroupAt(s: string): (r: Option<nat>)
    ensures r.Some? ==> 2 <= r.value <= |s|
  {
    if s != [] && s[0] == '(' then
      match FirstParen(s[1..])
      case Some(k) => if s[1 + k] == ')' then Some(k + 2) else None
      case None => None
    else None
  }

  /** One left-to-right pass that drops every `(...)` group with no parenthesis inside it. */
  function StripParens(s: string): string
    decreases |s|
  {
    if s == [] then []
    else match ParenGroupAt(s)
      case Some(n) => StripParens(s[n..])
      case None => [s[0]] + StripParens(s[1..])
  }

  lemma FirstParenAppend(a: string, b: string)
    ensures FirstParen(a).Some? ==> FirstParen(a + b) == FirstParen(a)
    ensures FirstParen(a).None? && FirstParen(b).Some? ==> FirstParen(a + b) == Some(|a| + FirstParen(b).value)
    ensures FirstParen(a).None? && FirstParen(b).None? ==> FirstParen(a + b).None?
  {
    var s := a + b;
    assert forall i :: 0 <= i < |a| ==> s[i] == a[i];
    assert forall i :: |a| <= i < |s| ==> s[i] == b[i - |a|];
    if FirstParen(a).Some? {
      FirstParenAt(s, FirstParen(a).value);
    } else if FirstParen(b).Some? {
      FirstParenAt(s, |a| + FirstParen(b).value);
    } else {
      assert forall i :: 0 <= i < |s| ==> !IsParen(s[i]);
    }
  }

  /** The first parenthesis is the one with none before it. */
  lemma FirstParenAt(s: string, k: nat)
    requires k < |s| && IsParen(s[k]) && forall j :: 0 <= j < k ==> !IsParen(s[j])
    ensures FirstParen(s) == Some(k)
  {
  }

  /** A group found in `a` is found the same way when `a` is followed by text starting with `(`. */
  lemma ParenGroupAtPrefix(a: string, rest: string)
    requires a != [] && rest != [] && rest[0] == '('
    ensures ParenGroupAt(a + rest) == ParenGroupAt(a)
    ensures ParenGroupAt(a).Some? ==> ParenGroupAt(a).value <= |a|
  {
    if a[0] == '(' {
      assert (a + rest)[1..] == a[1..] + rest;
      FirstParenAppend(a[1..], rest);
      if FirstParen(a[1..]).Some? {
        var k := FirstParen(a[1..]).value;
        assert (a + rest)[1 + k] == a[1 + k];
      } else {
        assert FirstParen(rest) == Some(0);
        assert (a + rest)[1 + |a[1..]|] == '(';
      }
    }
  }

  /**
   Removing a group with no parenthesis inside splits the pass in two: the text before the
   group and the text after it are cleaned as if the group were not there.
   */
  lemma StripParensGroup(a: string, b: string, c: string)
    requires forall k :: 0 <= k < |b| ==> !IsParen(b[k])
    ensures StripParens(a + "(" + b + ")" + c) == StripParens(a) + StripParens(c)
  {
    var rest := "(" + b + ")" + c;
    assert a + "(" + b + ")" + c == a + rest;
    StripParensBefore(a, rest);
    StripParensGroupAtStart(b, c);
  }

  /** No group found in text running up to a `(` reaches past it, so the two sides are cleaned independently. */
  lemma {:induction false} StripParensBefore(a: string, rest: string)
    requires rest != [] && rest[0] == '('
    ensures StripParens(a + rest) == StripParens(a) + StripParens(rest)
    decreases |a|
  {
    if a == [] {
      assert a + rest == rest;
    } else {
      var s := a + rest;
      ParenGroupAtPrefix(a, rest);
      match ParenGroupAt(a) {
        case Some(n) =>
          assert s[n..] == a[n..] + rest;
          StripParensBefore(a[n..], rest);
        case None =>
          assert s[0] == a[0] && s[1..] == a[1..] + rest;
          StripParensBefore(a[1..], rest);
          AppendAssoc([a[0]], StripParens(a[1..]), StripParens(rest));
      }
    }
  }

  /** A group at the very start is matched whole and dropped. */
  lemma StripParensGroupAtStart(b: string, c: string)
    requires forall k :: 0 <= k < |b| ==> !IsParen(b[k])
    ensures StripParens("(" + b + ")" + c) == StripParens(c)
  {
    var rest := "(" + b + ")" + c;
    assert rest[1..] == b + (")" + c);
    FirstParenAppend(b, ")" + c);
    assert FirstParen(")" + c) == Some(0);
    assert rest[1 + |b|] == ')';
    assert ParenGroupAt(rest) == Some(|b| + 2);
    assert rest[|b| + 2..] == c;
  }

  /** Text without `(` is left as it is. */
  lemma {:induction false} StripParensWithoutGroups(s: string)
    requires '(' !in s
    ensures StripParens(s) == s
  {
    if s != [] {
      StripParensWithoutGroups(s[1..]);
    }
  }

  /** The pass is not repeated: a group nested in another only loses its inner part. */
  lemma StripParensSinglePass()
    ensures StripParens("((x))") == "()"
  {
    StripParensGroup("(", "x", ")");
    assert "(" + "(" + "x" + ")" + ")" == "((x))";
    assert FirstParen("") == None;
    assert ParenGroupAt("(") == None;
    assert StripParens("(") == "(" + StripParens("(")[1..] by {
      assert "("[1..] == [];
    }
    StripParensWithoutGroups(")");
  }

  // ---------------------------------------------------------------------------------------
  // Removing the first bracketed segment: replace(/ *\[[^\]]*]/, '')

  /** Length of the run of spaces at the start of `s`. */
  function SpaceRun(s: string): (k: nat)
    ensures k <= |s| && (forall i :: 0 <= i < k ==> s[i] == ' ') && (k < |s| ==> s[k] != ' ')
  {
    if s != [] && s[0] == ' ' then 1 + SpaceRun(s[1..]) else 0
  }

  /** Index of the first `c` in `s`, if any. */
  function IndexOf(s: string, c: char): (r: Option<nat>)
    ensures r.Some? ==> r.value < |s| && s[r.value] == c && c !in s[..r.value]
    ensures r.None? ==> c !in s
  {
    if s == [] then None
    else if s[0] == c then Some(0)
    else match IndexOf(s[1..], c)
      case None => None
      case Some(k) => assert s[..k + 1] == [s[0]] + s[1..][..k]; Some(k + 1)
  }

  /** Length of a match of ` *\[[^\]]*]` at the start of `s`, if there is one. */
  function BracketGroupAt(s: string): (r: Option<nat>)
    ensures r.Some? ==> 2 <= r.value <= |s|
  {
    var k := SpaceRun(s);
    if k < |s| && s[k] == '[' then
      match IndexOf(s[k + 1..], ']')
      case Some(j) => Some(k + j + 2)
      case None => None
    else None
  }

  /** The first match only: scans to the first position where a segment starts, and cuts it out. */
  function RemoveFirstBracket(s: string): string {
    if s == [] then []
    else match BracketGroupAt(s)
      case Some(n) => s[n..]
      case None => [s[0]] + RemoveFirstBracket(s[1..])
  }

  /** Text without `[` is left as it is. */
  lemma {:induction false} RemoveFirstBracketWithout(s: string)
    requires '[' !in s
    ensures RemoveFirstBracket(s) == s
  {
    if s != [] {
      assert SpaceRun(s) < |s| ==> s[SpaceRun(s)] in s;
      RemoveFirstBracketWithout(s[1..]);
    }
  }

  /** No segment starts inside text that has no `[` and does not end with a space. */
  lemma NoBracketGroupInside(x: string, rest: string)
    requires x != [] && x[|x| - 1] != ' ' && '[' !in x
    ensures BracketGroupAt(x + rest).None?
  {
    var k := SpaceRun(x + rest);
    assert (x + rest)[|x| - 1] == x[|x| - 1];
    assert k < |x|;
    assert (x + rest)[k] == x[k];
  }

  /** A segment at the start (after its spaces) is matched up to its first `]`. */
  lemma BracketGroupAtStart(sp: string, b: string, c: string)
    requires forall i :: 0 <= i < |sp| ==> sp[i] == ' '
    requires ']' !in b
    ensures var s := sp + "[" + b + "]" + c;
            BracketGroupAt(s) == Some(|sp| + |b| + 2) && s[|sp| + |b| + 2..] == c
  {
    var s := sp + "[" + b + "]" + c;
    var k := SpaceRun(s);
    assert s[|sp|] == '[';
    assert k == |sp|;
    var t := b + "]" + c;
    assert s[k + 1..] == t;
    assert t[|b|] == ']';
    assert t[..|b|] == b;
    assert IndexOf(t, ']') == Some(|b|);
  }

  /** Text with no `[` before a segment is kept, and the segment is cut out. */
  lemma {:induction false} RemoveFirstBracketAfter(a: string, rest: string, n: nat)
    requires '[' !in a && (a == [] || a[|a| - 1] != ' ')
    requires BracketGroupAt(rest) == Some(n)
    ensures RemoveFirstBracket(a + rest) == a + rest[n..]
    decreases |a|
  {
    if a == [] {
      assert a + rest == rest;
    } else {
      var s := a + rest;
      NoBracketGroupInside(a, rest);
      RemoveFirstBracketStep(s);
      ConsAppend(a, rest);
      assert '[' !in a[1..];
      RemoveFirstBracketAfter(a[1..], rest, n);
      AppendAssoc([a[0]], a[1..], rest[n..]);
    }
  }

  /** Where no segment starts, the first character is kept and the search moves on. */
  lemma RemoveFirstBracketStep(s: string)
    requires s != [] && BracketGroupAt(s).None?
    ensures RemoveFirstBracket(s) == [s[0]] + RemoveFirstBracket(s[1..])
  {
  }

  /** Splitting off the first element of the front part of a concatenation. */
  lemma ConsAppend<T>(a: seq<T>, rest: seq<T>)
    requires a != []
    ensures (a + rest)[0] == a[0] && (a + rest)[1..] == a[1..] + rest && a == [a[0]] + a[1..]
    ensures forall x :: x in a[1..] ==> x in a
  {
  }

  /**
   Only the first bracketed segment goes, with the spaces directly before it; text before it
   is kept, and so is everything after it, including later bracketed segments.
   */
  lemma RemoveFirstBracketSegment(a: string, sp: string, b: string, c: string)
    requires '[' !in a && (a == [] || a[|a| - 1] != ' ')
    requires forall i :: 0 <= i < |sp| ==> sp[i] == ' '
    requires ']' !in b
    ensures RemoveFirstBracket(a + sp + "[" + b + "]" + c) == a + c
  {
    var rest := sp + "[" + b + "]" + c;
    assert a + sp + "[" + b + "]" + c == a + rest;
    BracketGroupAtStart(sp, b, c);
    RemoveFirstBracketAfter(a, rest, |sp| + |b| + 2);
  }

  // ---------------------------------------------------------------------------------------
  // Words: match(/[a-zA-Z0-9&]+/g)

  predicate IsWordChar(c: char) {
    'a' <= c <= 'z' || 'A' <= c <= 'Z' || '0' <= c <= '9' || c == '&'
  }

  /** A non-empty run of word characters. */
  predicate IsWord(w: string) {
    w != [] && forall i :: 0 <= i < |w| ==> IsWordChar(w[i])
  }

  /** The maximal runs of word characters, in order, as `match` with the global flag finds them. */
  function Words(s: string): (ws: seq<string>)
    ensures s != [] && IsWordChar(s[|s| - 1]) ==> ws != []
  {
    if s == [] then []
    else
      var init, x := s[..|s| - 1], s[|s| - 1];
      var ws := Words(init);
      if !IsWordChar(x) then
        ws
      else if init != [] && IsWordChar(init[|init| - 1]) then
        ws[..|ws| - 1] + [ws[|ws| - 1] + [x]]
      else
        ws + [[x]]
  }

  /** The word characters of `s`, in order. */
  function WordChars(s: string): string {
    if s == [] then []
    else WordChars(s[..|s| - 1]) + (if IsWordChar(s[|s| - 1]) then [s[|s| - 1]] else [])
  }

  /** No word character is lost, added or reordered: the words, put together, are the word characters. */
  lemma {:induction false} WordsKeepWordChars(s: string)
    ensures Join(Words(s), "") == WordChars(s)
  {
    if s != [] {
      var init, x := s[..|s| - 1], s[|s| - 1];
      WordsKeepWordChars(init);
      assert s == init + [x];
      WordsSnoc(init, x);
      var ws := Words(init);
      if IsWordChar(x) {
        if init != [] && IsWordChar(init[|init| - 1]) {
          ConcatExtendLast(ws, x);
        } else {
          ConcatSnoc(ws, [x]);
        }
      }
    }
  }

  /** Joining with no separator: one more part adds its text at the end. */
  lemma ConcatSnoc(ws: seq<string>, w: string)
    ensures Join(ws + [w], "") == Join(ws, "") + w
  {
    if ws == [] {
      assert ws + [w] == [w];
    } else {
      assert (ws + [w])[..|ws|] == ws;
    }
  }

  /** Extending the last part by one character extends the whole text by it. */
  lemma ConcatExtendLast(ws: seq<string>, x: char)
    requires ws != []
    ensures Join(ws[..|ws| - 1] + [ws[|ws| - 1] + [x]], "") == Join(ws, "") + [x]
  {
    var front, last := ws[..|ws| - 1], ws[|ws| - 1];
    ConcatSnoc(front, last + [x]);
    ConcatSnoc(front, last);
    SnocSplit(ws);
    AppendAssoc(Join(front, ""), last, [x]);
  }

  /** Every part found is a non-empty run of word characters. */
  lemma {:induction false} WordsAreWords(s: string)
    ensures forall k :: 0 <= k < |Words(s)| ==> IsWord(Words(s)[k])
  {
    if s != [] {
      var init, x := s[..|s| - 1], s[|s| - 1];
      WordsAreWords(init);
      WordsSnoc(init, x);
      assert s == init + [x];
    }
  }

  /** No word is found exactly when there is no word character: `match` then returns null. */
  lemma {:induction false} WordsEmpty(s: string)
    ensures Words(s) == [] <==> forall i :: 0 <= i < |s| ==> !IsWordChar(s[i])
  {
    if s != [] {
      var init := s[..|s| - 1];
      WordsEmpty(init);
      assert forall i :: 0 <= i < |init| ==> init[i] == s[i];
    }
  }

  /** One more character either ends no word, extends the last word, or starts a new one. */
  lemma WordsSnoc(init: string, x: char)
    ensures var ws := Words(init);
            Words(init + [x]) ==
              if !IsWordChar(x) then ws
              else if init != [] && IsWordChar(init[|init| - 1]) then ws[..|ws| - 1] + [ws[|ws| - 1] + [x]]
              else ws + [[x]]
  {
    assert (init + [x])[..|init|] == init;
  }

  /** A character that is not a word character separates: the words on each side are found independently. */
  lemma {:induction false} WordsSeparated(a: string, x: char, b: string)
    requires !IsWordChar(x)
    ensures Words(a + [x] + b) == Words(a) + Words(b)
    decreases |b|
  {
    if b == [] {
      WordsSnoc(a, x);
      assert a + [x] + b == a + [x];
    } else {
      var b', y := b[..|b| - 1], b[|b| - 1];
      WordsSeparated(a, x, b');
      assert a + [x] + b == (a + [x] + b') + [y];
      assert b == b' + [y];
      WordsSeparatedStep(a, x, b', y);
    }
  }

  /** The step of `WordsSeparated`: one more character after the separator keeps the words apart. */
  lemma WordsSeparatedStep(a: string, x: char, b: string, y: char)
    requires !IsWordChar(x)
    requires Words(a + [x] + b) == Words(a) + Words(b)
    ensures Words(a + [x] + b + [y]) == Words(a) + Words(b + [y])
  {
    var init := a + [x] + b;
    if !IsWordChar(y) {
      WordsSnoc(init, y);
      WordsSnoc(b, y);
    } else if b != [] && IsWordChar(b[|b| - 1]) {
      assert init[|init| - 1] == b[|b| - 1];
      WordsExtendLast(init, Words(a), b, y);
    } else {
      assert init[|init| - 1] == if b == [] then x else b[|b| - 1];
      WordsSnoc(init, y);
      WordsSnoc(b, y);
      AppendAssoc(Words(a), Words(b), [[y]]);
    }
  }

  /** A word character after a word character extends the last word, whatever came before. */
  lemma WordsExtendLast(init: string, wa: seq<string>, b: string, y: char)
    requires IsWordChar(y) && b != [] && IsWordChar(b[|b| - 1])
    requires init != [] && init[|init| - 1] == b[|b| - 1]
    requires Words(init) == wa + Words(b)
    ensures Words(init + [y]) == wa + Words(b + [y])
  {
    WordsSnoc(init, y);
    WordsSnoc(b, y);
    var wb := Words(b);
    ReplaceLast(wa, wb, wb[|wb| - 1] + [y]);
  }

  /** A non-empty sequence is its front followed by its last element. */
  lemma SnocSplit<T>(s: seq<T>)
    requires s != []
    ensures s == s[..|s| - 1] + [s[|s| - 1]]
  {
  }

  lemma AppendAssoc<T>(u: seq<T>, v: seq<T>, w: seq<T>)
    ensures u + (v + w) == (u + v) + w
  {
  }

  /** Replacing the last element of `u + v` replaces the last element of `v`. */
  lemma ReplaceLast<T>(u: seq<T>, v: seq<T>, z: T)
    requires v != []
    ensures (u + v)[..|u + v| - 1] + [z] == u + (v[..|v| - 1] + [z])
  {
  }

  /** A single word is found as itself. */
  lemma {:induction false} WordsOfWord(w: string)
    requires IsWord(w)
    ensures Words(w) == [w]
  {
    var init, x := w[..|w| - 1], w[|w| - 1];
    if init == [] {
      assert w == [x];
    } else {
      assert forall i :: 0 <= i < |init| ==> init[i] == w[i];
      WordsOfWord(init);
      assert w == init + [x];
    }
  }

  /** Re-reading words joined by single spaces gives the same words back. */
  lemma {:induction false} WordsOfJoin(ws: seq<string>)
    requires forall k :: 0 <= k < |ws| ==> IsWord(ws[k])
    ensures Words(Join(ws, " ")) == ws
  {
    if |ws| == 1 {
      WordsOfWord(ws[0]);
    } else if |ws| > 1 {
      var init, last := ws[..|ws| - 1], ws[|ws| - 1];
      assert forall k :: 0 <= k < |init| ==> init[k] == ws[k];
      WordsOfJoin(init);
      WordsOfWord(last);
      assert Join(ws, " ") == Join(init, " ") + [' '] + last;
      WordsSeparated(Join(init, " "), ' ', last);
      SnocSplit(ws);
    }
  }

  /** Words joined by single spaces: word characters, each space between two of them. */
  predicate SingleSpaced(t: string) {
    && t != [] && IsWordChar(t[0]) && IsWordChar(t[|t| - 1])
    && forall i {:trigger t[i]} :: 0 <= i < |t| ==> IsWordChar(t[i]) || (t[i] == ' ' && 0 < i < |t| - 1
                                                          && IsWordChar(t[i - 1]) && IsWordChar(t[i + 1]))
  }

  /** Single-spaced text holds no parenthesis and no bracket. */
  lemma SingleSpacedPlain(t: string)
    requires SingleSpaced(t)
    ensures '(' !in t && '[' !in t
  {
  }

  lemma {:induction false} JoinSingleSpaced(ws: seq<string>)
    requires ws != [] && forall k :: 0 <= k < |ws| ==> IsWord(ws[k])
    ensures SingleSpaced(Join(ws, " "))
  {
    if |ws| > 1 {
      var init := ws[..|ws| - 1];
      JoinSingleSpaced(init);
      var a, w := Join(init, " "), ws[|ws| - 1];
      var t := a + " " + w;
      assert Join(ws, " ") == t;
      forall i | 0 <= i < |t|
        ensures IsWordChar(t[i]) || (t[i] == ' ' && 0 < i < |t| - 1 && IsWordChar(t[i - 1]) && IsWordChar(t[i + 1]))
      {
        if i < |a| {
          assert t[i] == a[i];
          if 0 < i < |a| - 1 { assert t[i - 1] == a[i - 1] && t[i + 1] == a[i + 1]; }
        } else if i == |a| {
          assert t[i - 1] == a[|a| - 1] && t[i + 1] == w[0];
        } else {
          assert t[i] == w[i - |a| - 1];
        }
      }
    }
  }

  // ---------------------------------------------------------------------------------------
  // cleanLabelName

  /** The outcome of `cleanLabelName`: a label name, or the TypeError `join` throws when `match` found no word. */
  datatype Cleaned = Derived(name: string) | NoWords

  /** The title with its parenthesised groups and its first bracketed segment removed. */
  function CleanTitle(title: string): string {
    RemoveFirstBracket(StripParens(title))
  }

  /** The trimmed prefix, one space, and the words of the cleaned title joined by single spaces. */
  function CleanLabelName(prefix: string, title: string): Cleaned {
    var words := Words(CleanTitle(title));
    if words == [] then NoWords
    else Derived(Trim(prefix) + " " + Join(words, " "))
  }

  /**
   A label is derived exactly when the cleaned title has a word character; it is the trimmed
   prefix and a space, followed by single-spaced text whose words are the cleaned title's words.
   */
  lemma CleanLabelNameShape(prefix: string, title: string)
    ensures CleanLabelName(prefix, title).NoWords? <==>
              forall i :: 0 <= i < |CleanTitle(title)| ==> !IsWordChar(CleanTitle(title)[i])
    ensures CleanLabelName(prefix, title).Derived? ==>
              var name, p := CleanLabelName(prefix, title).name, Trim(prefix);
              var rest := name[|p| + 1..];
              && |name| > |p| + 1 && name[..|p| + 1] == p + " "
              && SingleSpaced(rest)
              && Words(rest) == Words(CleanTitle(title))
              && Join(Words(rest), "") == WordChars(CleanTitle(title))
  {
    var words := Words(CleanTitle(title));
    WordsEmpty(CleanTitle(title));
    if words != [] {
      var p := Trim(prefix);
      var derived := p + " " + Join(words, " ");
      assert derived[|p| + 1..] == Join(words, " ");
      WordsAreWords(CleanTitle(title));
      JoinSingleSpaced(words);
      WordsOfJoin(words);
      WordsKeepWordChars(CleanTitle(title));
    }
  }

  /** Cleaning the word part of a derived label again gives the same label. */
  lemma CleanLabelNameIdempotent(prefix: string, title: string)
    requires CleanLabelName(prefix, title).Derived?
    ensures var derived := CleanLabelName(prefix, title).name;
            CleanLabelName(prefix, derived[|Trim(prefix)| + 1..]) == Derived(derived)
  {
    var words := Words(CleanTitle(title));
    var p := Trim(prefix);
    var rest := Join(words, " ");
    assert (p + " " + rest)[|p| + 1..] == rest;
    WordsAreWords(CleanTitle(title));
    JoinSingleSpaced(words);
    SingleSpacedPlain(rest);
    StripParensWithoutGroups(rest);
    RemoveFirstBracketWithout(rest);
    WordsOfJoin(words);
  }

  /** The empty title derives no label. */
  lemma CleanLabelNameEmptyTitle(prefix: string)
    ensures CleanLabelName(prefix, "").NoWords?
  {
  }

  /** The default prefixes end in a space, which `trim` drops before the label's own space is added. */
  lemma TrimColumnPrefix()
    ensures Trim(ColumnLabelPrefix) == ">"
  {
    assert ColumnLabelPrefix == ">" + [' '];
    TrimAppendWhitespace(">", ' ');
    TrimOfTrimmed(">");
  }

  lemma TrimLinkedPrefix()
    ensures Trim(LinkedLabelPrefix) == ">>"
  {
    assert LinkedLabelPrefix == ">>" + [' '];
    TrimAppendWhitespace(">>", ' ');
    TrimOfTrimmed(">>");
  }

  /** No word is dropped as noise: `the` stays in the label derived from this title. */
  lemma CleanLabelNameKeepsEveryWord()
    ensures CleanLabelName(ColumnLabelPrefix, "Fix the Login (v2) [urgent]") == Derived("> Fix the Login")
  {
    LoginTitleWords();
    LoginLabelText();
  }

  lemma LoginTitleWords()
    ensures Words(CleanTitle("Fix the Login (v2) [urgent]")) == ["Fix", "the", "Login"]
  {
    LoginCleanTitle();
    LoginWords();
  }

  lemma LoginLabelText()
    ensures Trim(ColumnLabelPrefix) + " " + Join(["Fix", "the", "Login"], " ") == "> Fix the Login"
  {
    TrimColumnPrefix();
    LoginJoin();
  }

  lemma LoginJoin()
    ensures Join(["Fix", "the", "Login"], " ") == "Fix the Login"
  {
    var ws := ["Fix", "the", "Login"];
    assert ws[..2] == ["Fix", "the"];
    assert Join(["Fix", "the"], " ") == "Fix the";
  }

  lemma LoginCleanTitle()
    ensures CleanTitle("Fix the Login (v2) [urgent]") == "Fix the Login"
  {
    assert "Fix the Login (v2) [urgent]" == "Fix the Login" + " (" + "v2" + ") [" + "urgent" + "]";
    CleanTitleDropsAnnotations("Fix the Login", "v2", "urgent");
  }

  lemma LoginWords()
    ensures Words("Fix the Login") == ["Fix", "the", "Login"]
  {
    var ws := ["Fix", "the", "Login"];
    assert IsWord(ws[0]) && IsWord(ws[1]) && IsWord(ws[2]);
    WordsOfJoin(ws);
    LoginJoin();
  }

  /** A title followed by a parenthesised note and a bracketed tag is cleaned back to the title. */
  lemma CleanTitleDropsAnnotations(t: string, note: string, tag: string)
    requires t != [] && t[|t| - 1] != ' ' && '(' !in t && '[' !in t
    requires forall k :: 0 <= k < |note| ==> !IsParen(note[k])
    requires '(' !in tag && ']' !in tag
    ensures CleanTitle(t + " (" + note + ") [" + tag + "]") == t
  {
    AnnotationsStripped(t, note, tag);
    SpacedTag(t, tag);
    RemoveFirstBracketSegment(t, "  ", tag, "");
  }

  /** The parenthesised note goes first, leaving the two spaces around it and the bracketed tag. */
  lemma AnnotationsStripped(t: string, note: string, tag: string)
    requires '(' !in t && '(' !in tag
    requires forall k :: 0 <= k < |note| ==> !IsParen(note[k])
    ensures StripParens(t + " (" + note + ") [" + tag + "]") == t + "  [" + tag + "]"
  {
    var before, after := t + " ", " [" + tag + "]";
    assert t + " (" + note + ") [" + tag + "]" == before + "(" + note + ")" + after;
    StripParensGroup(before, note, after);
    assert '(' !in before && '(' !in after;
    StripParensWithoutGroups(before);
    StripParensWithoutGroups(after);
    SpacedTag(t, tag);
  }

  /** The text left between the title and its tag, grouped as each cleaning step reads it. */
  lemma SpacedTag(t: string, tag: string)
    ensures (t + " ") + (" [" + tag + "]") == t + "  [" + tag + "]"
    ensures t + "  [" + tag + "]" == t + "  " + "[" + tag + "]" + ""
  {
  }

  /** A derived label with a non-blank prefix is its own trim. */
  lemma DerivedLabelIsTrimmed(prefix: string, title: string)
    requires CleanLabelName(prefix, title).Derived? && Trim(prefix) != []
    ensures Trim(CleanLabelName(prefix, title).name) == CleanLabelName(prefix, title).name
  {
    var words := Words(CleanTitle(title));
    WordsAreWords(CleanTitle(title));
    JoinSingleSpaced(words);
    var rest := Join(words, " ");
    var derived := Trim(prefix) + " " + rest;
    assert derived[|derived| - 1] == rest[|rest| - 1];
    TrimOfTrimmed(derived);
  }

  /** A derived label with a non-blank prefix starts, trimmed, with the trimmed prefix and one space. */
  lemma DerivedLabelStart(prefix: string, title: string)
    requires CleanLabelName(prefix, title).Derived? && Trim(prefix) != []
    ensures Trim(prefix) + " " <= Trim(CleanLabelName(prefix, title).name)
  {
    DerivedLabelIsTrimmed(prefix, title);
    var p := Trim(prefix);
    var derived := CleanLabelName(prefix, title).name;
    assert derived == p + " " + Join(Words(CleanTitle(title)), " ");
    assert derived[..|p| + 1] == p + " ";
  }

  /**
   With the default prefixes the two roles never capture each other's labels: a label derived
   for the linked issue starts, trimmed, with its own prefix and not with the column prefix.
   */
  lemma LinkedLabelKeepsItsRole(title: string)
    requires CleanLabelName(LinkedLabelPrefix, title).Derived?
    ensures var name := Trim(CleanLabelName(LinkedLabelPrefix, title).name);
            LinkedLabelPrefix <= name && !(ColumnLabelPrefix <= name)
  {
    TrimLinkedPrefix();
    DerivedLabelStart(LinkedLabelPrefix, title);
    var name := Trim(CleanLabelName(LinkedLabelPrefix, title).name);
    assert LinkedLabelPrefix == Trim(LinkedLabelPrefix) + " ";
    assert name[1] == '>';
    NotPrefixAt(ColumnLabelPrefix, name, 1);
  }

  /** A label derived for the column starts, trimmed, with its own prefix and not with the linked prefix. */
  lemma ColumnLabelKeepsItsRole(title: string)
    requires CleanLabelName(ColumnLabelPrefix, title).Derived?
    ensures var name := Trim(CleanLabelName(ColumnLabelPrefix, title).name);
            ColumnLabelPrefix <= name && !(LinkedLabelPrefix <= name)
  {
    TrimColumnPrefix();
    DerivedLabelStart(ColumnLabelPrefix, title);
    var name := Trim(CleanLabelName(ColumnLabelPrefix, title).name);
    assert ColumnLabelPrefix == Trim(ColumnLabelPrefix) + " ";
    assert name[1] == ' ';
    NotPrefixAt(LinkedLabelPrefix, name, 1);
  }

  /** Sequences that differ at a position inside both are not prefixes of one another. */
  lemma NotPrefixAt(p: string, s: string, i: nat)
    requires i < |p| && i < |s| && p[i] != s[i]
    ensures !(p <= s)
  {
  }

  // ---------------------------------------------------------------------------------------
  // ensureOnlyLabel

  /** A reported decision. */
  datatype Action = Remove(name: string) | Add(name: string) | AlreadyExists(name: string)

  /** `name.trim().startsWith(prefix)`; the prefix itself is not trimmed. */
  predicate HasPrefix(name: string, prefix: string) {
    prefix <= Trim(name)
  }

  /** `labels.filter(label => label.name === name)`: the labels whose name is exactly `name`. */
  function Named(labels: seq<Label>, name: string): (r: seq<Label>)
    ensures forall l :: l in r <==> l in labels && l.name == name
  {
    if labels == [] then []
    else
      var init, l := labels[..|labels| - 1], labels[|labels| - 1];
      assert labels == init + [l];
      Named(init, name) + (if l.name == name then [l] else [])
  }

  /** The removals the loop reports, one per label whose trimmed name starts with the prefix, in label order. */
  function Removals(labels: seq<Label>, prefix: string): (r: seq<Action>)
    ensures |r| <= |labels|
    ensures forall i :: 0 <= i < |r| ==> r[i].Remove?
  {
    if labels == [] then []
    else
      var init, l := labels[..|labels| - 1], labels[|labels| - 1];
      Removals(init, prefix) + (if HasPrefix(l.name, prefix) then [Remove(l.name)] else [])
  }

  /** With no label of that exact name the filter finds nothing. */
  lemma {:induction false} NamedNone(labels: seq<Label>, name: string)
    requires forall l :: l in labels ==> l.name != name
    ensures Named(labels, name) == []
  {
    if labels != [] {
      var init := labels[..|labels| - 1];
      assert forall l :: l in init ==> l in labels;
      NamedNone(init, name);
    }
  }

  /** A label name is reported for removal exactly when some label has it and its trimmed form starts with the prefix. */
  lemma {:induction false} RemovalsMembers(labels: seq<Label>, prefix: string, n: string)
    ensures Remove(n) in Removals(labels, prefix) <==>
              (exists l :: l in labels && l.name == n) && HasPrefix(n, prefix)
  {
    if labels != [] {
      var init, last := labels[..|labels| - 1], labels[|labels| - 1];
      RemovalsMembers(init, prefix, n);
      SnocMembers(labels);
      if exists l :: l in labels && l.name == n {
        var l :| l in labels && l.name == n;
        if l != last {
          assert l in init;
        }
      }
    }
  }

  /** A sequence is its front followed by its last element, as far as membership goes. */
  lemma SnocMembers<T>(s: seq<T>)
    requires s != []
    ensures forall x :: x in s <==> x in s[..|s| - 1] || x == s[|s| - 1]
  {
    assert s == s[..|s| - 1] + [s[|s| - 1]];
  }

  /** The decisions `ensureOnlyLabel` reports, in order. */
  function Decisions(labels: seq<Label>, prefix: string, target: string): seq<Action> {
    if |Named(labels, target)| == 0 then Removals(labels, prefix) + [Add(target)]
    else [AlreadyExists(target)]
  }

  /** Reports the decisions for one issue; the issue and its labels are left as they are. */
  method EnsureOnlyLabel(issue: Issue, prefix: string, labelName: string) returns (actions: seq<Action>)
    ensures actions == Decisions(issue.labels, prefix, labelName)
  {
    var initLabels := Named(issue.labels, labelName);
    if |initLabels| == 0 {
      actions := [];
      var labels := issue.labels;
      for i := 0 to |labels|
        invariant actions == Removals(labels[..i], prefix)
      {
        TakeOneMore(labels, i);
        if HasPrefix(labels[i].name, prefix) {
          actions := actions + [Remove(labels[i].name)];
        }
      }
      assert labels[..|labels|] == labels;
      actions := actions + [Add(labelName)];
    } else {
      actions := [AlreadyExists(labelName)];
    }
  }

  lemma TakeOneMore<T>(s: seq<T>, i: nat)
    requires i < |s|
    ensures s[..i + 1][..i] == s[..i] && s[..i + 1][i] == s[i]
  {
  }

  /** An exact, case-sensitive match is the only decision: no removal and no addition. */
  lemma DecisionsWhenLabelExists(labels: seq<Label>, prefix: string, target: string)
    requires exists l :: l in labels && l.name == target
    ensures Decisions(labels, prefix, target) == [AlreadyExists(target)]
  {
    var l :| l in labels && l.name == target;
    assert l in Named(labels, target);
  }

  /**
   Without an exact match: removals of exactly the labels whose trimmed name starts with the
   prefix, then one addition of the target, last.
   */
  lemma DecisionsWhenLabelMissing(labels: seq<Label>, prefix: string, target: string, n: string)
    requires forall l :: l in labels ==> l.name != target
    ensures var r := Decisions(labels, prefix, target);
            && 1 <= |r| <= |labels| + 1 && r[|r| - 1] == Add(target)
            && (forall i :: 0 <= i < |r| - 1 ==> r[i].Remove?)
            && (Remove(n) in r <==> (exists l :: l in labels && l.name == n) && HasPrefix(n, prefix))
  {
    NamedNone(labels, target);
    var rs := Removals(labels, prefix);
    var r := rs + [Add(target)];
    assert forall i :: 0 <= i < |r| - 1 ==> r[i] == rs[i];
    RemovalsMembers(labels, prefix, n);
    SnocMembers(r);
    assert r[..|r| - 1] == rs;
  }

  /** Removals are reported in label order: the labels' removals, then the next labels'. */
  lemma {:induction false} RemovalsAppend(a: seq<Label>, b: seq<Label>, prefix: string)
    ensures Removals(a + b, prefix) == Removals(a, prefix) + Removals(b, prefix)
    decreases |b|
  {
    if b == [] {
      assert a + b == a;
    } else {
      var b', l := b[..|b| - 1], b[|b| - 1];
      assert (a + b)[..|a + b| - 1] == a + b';
      RemovalsAppend(a, b', prefix);
      var extra := if HasPrefix(l.name, prefix) then [Remove(l.name)] else [];
      AppendAssoc(Removals(a, prefix), Removals(b', prefix), extra);
    }
  }

  /** An empty prefix reports every label for removal, in label order. */
  lemma {:induction false} RemovalsEmptyPrefix(labels: seq<Label>)
    ensures |Removals(labels, "")| == |labels|
    ensures forall i :: 0 <= i < |labels| ==> Removals(labels, "")[i] == Remove(labels[i].name)
  {
    if labels != [] {
      var init := labels[..|labels| - 1];
      RemovalsEmptyPrefix(init);
      assert HasPrefix(labels[|labels| - 1].name, "");
    }
  }

  // ---------------------------------------------------------------------------------------
  // What the decisions mean

  /** The names of the labels not reported for removal, in label order. */
  function Kept(labels: seq<Label>, actions: seq<Action>): seq<string> {
    if labels == [] then []
    else
      var init, l := labels[..|labels| - 1], labels[|labels| - 1];
      Kept(init, actions) + (if Remove(l.name) in actions then [] else [l.name])
  }

  /** The names reported for addition, in order. */
  function Added(actions: seq<Action>): seq<string> {
    if actions == [] then []
    else
      var init, a := actions[..|actions| - 1], actions[|actions| - 1];
      Added(init) + (if a.Add? then [a.name] else [])
  }

  /** The label names an issue would carry if the decisions were carried out. */
  function LabelsAfter(labels: seq<Label>, actions: seq<Action>): seq<string> {
    Kept(labels, actions) + Added(actions)
  }

  /** The names whose trimmed form starts with the prefix, in order. */
  function WithPrefix(names: seq<string>, prefix: string): (r: seq<string>)
    ensures forall k :: 0 <= k < |r| ==> HasPrefix(r[k], prefix)
  {
    if names == [] then []
    else
      var init, n := names[..|names| - 1], names[|names| - 1];
      WithPrefix(init, prefix) + (if HasPrefix(n, prefix) then [n] else [])
  }

  /** A kept name belongs to a label and was not reported for removal. */
  lemma {:induction false} KeptMembers(labels: seq<Label>, actions: seq<Action>, n: string)
    ensures n in Kept(labels, actions) <==> Remove(n) !in actions && exists l :: l in labels && l.name == n
  {
    if labels != [] {
      var init, last := labels[..|labels| - 1], labels[|labels| - 1];
      KeptMembers(init, actions, n);
      SnocMembers(labels);
      if exists l :: l in labels && l.name == n {
        var l :| l in labels && l.name == n;
        if l != last {
          assert l in init;
        }
      }
    }
  }

  lemma AddedSnoc(init: seq<Action>, a: Action)
    ensures Added(init + [a]) == Added(init) + (if a.Add? then [a.name] else [])
  {
    assert (init + [a])[..|init|] == init;
  }

  /** Removals contribute no added name. */
  lemma {:induction false} AddedOfRemovals(labels: seq<Label>, prefix: string)
    ensures Added(Removals(labels, prefix)) == []
  {
    if labels != [] {
      var init, l := labels[..|labels| - 1], labels[|labels| - 1];
      AddedOfRemovals(init, prefix);
      if HasPrefix(l.name, prefix) {
        AddedSnoc(Removals(init, prefix), Remove(l.name));
      } else {
        assert Removals(labels, prefix) == Removals(init, prefix);
      }
    }
  }

  /** No name in the list has the prefix, so none is selected. */
  lemma {:induction false} WithPrefixNone(names: seq<string>, prefix: string)
    requires forall k :: 0 <= k < |names| ==> !HasPrefix(names[k], prefix)
    ensures WithPrefix(names, prefix) == []
  {
    if names != [] {
      WithPrefixNone(names[..|names| - 1], prefix);
    }
  }

  lemma {:induction false} WithPrefixAppend(a: seq<string>, b: seq<string>, prefix: string)
    ensures WithPrefix(a + b, prefix) == WithPrefix(a, prefix) + WithPrefix(b, prefix)
    decreases |b|
  {
    if b == [] {
      assert a + b == a;
    } else {
      var b', n := b[..|b| - 1], b[|b| - 1];
      assert (a + b)[..|a + b| - 1] == a + b';
      WithPrefixAppend(a, b', prefix);
      var extra := if HasPrefix(n, prefix) then [n] else [];
      AppendAssoc(WithPrefix(a, prefix), WithPrefix(b', prefix), extra);
    }
  }

  /**
   When no label matches exactly and the target itself carries the prefix, carrying out the
   decisions leaves exactly one label with the prefix: the target.
   */
  lemma OnlyTargetKeepsPrefix(labels: seq<Label>, prefix: string, target: string)
    requires forall l :: l in labels ==> l.name != target
    requires HasPrefix(target, prefix)
    ensures WithPrefix(LabelsAfter(labels, Decisions(labels, prefix, target)), prefix) == [target]
  {
    NamedNone(labels, target);
    var rs := Removals(labels, prefix);
    var acts := rs + [Add(target)];
    var kept := Kept(labels, acts);
    forall k | 0 <= k < |kept| ensures !HasPrefix(kept[k], prefix) {
      var n := kept[k];
      KeptMembers(labels, acts, n);
      RemovalsMembers(labels, prefix, n);
      assert Remove(n) !in rs by {
        SnocMembers(acts);
        assert acts[..|acts| - 1] == rs;
      }
    }
    WithPrefixNone(kept, prefix);
    assert Added(acts) == [target] by {
      assert acts[..|acts| - 1] == rs;
      AddedOfRemovals(labels, prefix);
    }
    WithPrefixAppend(kept, [target], prefix);
    assert WithPrefix([target], prefix) == WithPrefix([], prefix) + [target];
  }

  /** The names of the labels, in label order. */
  function NamesOf(labels: seq<Label>): (names: seq<string>)
    ensures |names| == |labels| && forall i :: 0 <= i < |labels| ==> names[i] == labels[i].name
  {
    seq(|labels|, i requires 0 <= i < |labels| => labels[i].name)
  }

  /** A decision list with no removal keeps every label. */
  lemma {:induction false} KeptAll(labels: seq<Label>, t: string)
    ensures Kept(labels, [AlreadyExists(t)]) == NamesOf(labels)
  {
    if labels != [] {
      var init := labels[..|labels| - 1];
      KeptAll(init, t);
      assert NamesOf(labels) == NamesOf(init) + [labels[|labels| - 1].name];
    }
  }

  /**
   An exact match keeps every label, other labels with the prefix included: the function
   promises a single prefixed label only when it has to add the target.
   */
  lemma ExactMatchKeepsEveryLabel(labels: seq<Label>, prefix: string, target: string)
    requires exists l :: l in labels && l.name == target
    ensures LabelsAfter(labels, Decisions(labels, prefix, target)) == NamesOf(labels)
  {
    DecisionsWhenLabelExists(labels, prefix, target);
    KeptAll(labels, target);
    assert Added([AlreadyExists(target)]) == [];
  }

  /** Two labels with the column prefix stay when one of them is the target. */
  lemma ExactMatchKeepsOtherPrefixed()
    ensures var labels := [Label("> A"), Label("> B")];
            LabelsAfter(labels, Decisions(labels, ColumnLabelPrefix, "> A")) == ["> A", "> B"]
  {
    var labels := [Label("> A"), Label("> B")];
    assert labels[0] in labels;
    ExactMatchKeepsEveryLabel(labels, ColumnLabelPrefix, "> A");
    assert NamesOf(labels) == ["> A", "> B"];
  }

}
