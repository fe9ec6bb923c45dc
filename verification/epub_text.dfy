/** Text clean-up used by the EPUB view adapter: whitespace normalisation,
    tag stripping, lower-casing and substring search. */
module EpubText {
  import opened Seqs

  /** A character JavaScript's `\s` and `trim()` treat as white space: the
      ECMAScript WhiteSpace and LineTerminator characters. */
  predicate IsSpace(c: char) {
    var n := c as int;
    || 9 <= n <= 13 || n == 32 || n == 0xA0 || n == 0x1680
    || 0x2000 <= n <= 0x200A || n == 0x2028 || n == 0x2029
    || n == 0x202F || n == 0x205F || n == 0x3000 || n == 0xFEFF
  }

  /** The characters of `s` that are not white space, in order. */
  function Visible(s: string): string
    decreases |s|
  {
    if s == [] then []
    else (if IsSpace(s[0]) then [] else [s[0]]) + Visible(s[1..])
  }

  lemma {:induction false} VisibleConcat(a: string, b: string)
    ensures Visible(a + b) == Visible(a) + Visible(b)
    decreases |a|
  {
    if a == [] {
      assert a + b == b;
    } else {
      assert (a + b)[0] == a[0] && (a + b)[1..] == a[1..] + b;
      VisibleConcat(a[1..], b);
    }
  }

  /** White space only as single plain blanks. */
  predicate Tidy(s: string) {
    && (forall i :: 0 <= i < |s| && IsSpace(s[i]) ==> s[i] == ' ')
    && (forall i :: 0 <= i < |s| - 1 ==> !(IsSpace(s[i]) && IsSpace(s[i + 1])))
  }

  /** The shape of a normalised string: tidy, with nothing to trim. */
  predicate Normalised(s: string) {
    Tidy(s) && (s != [] ==> !IsSpace(s[0]) && !IsSpace(s[|s| - 1]))
  }

  lemma {:induction false} VisibleOfSpaces(s: string)
    requires forall i :: 0 <= i < |s| ==> IsSpace(s[i])
    ensures Visible(s) == []
    decreases |s|
  {
    if s != [] {
      VisibleOfSpaces(s[1..]);
    }
  }

  /** Nothing but white space. */
  predicate AllSpaces(s: string) {
    forall i :: 0 <= i < |s| ==> IsSpace(s[i])
  }

  /** `s` without its leading white space. */
  function DropSpaces(s: string): (r: string)
    ensures |r| <= |s| && r == s[|s| - |r|..]
    ensures r != [] ==> !IsSpace(r[0])
    ensures forall i :: 0 <= i < |s| - |r| ==> IsSpace(s[i])
    decreases |s|
  {
    if s != [] && IsSpace(s[0]) then DropSpaces(s[1..]) else s
  }

  /** `s` without its trailing white space. */
  function DropTrailingSpaces(s: string): (r: string)
    ensures |r| <= |s| && r == s[..|r|]
    ensures r != [] ==> !IsSpace(r[|r| - 1])
    ensures forall i :: |r| <= i < |s| ==> IsSpace(s[i])
    decreases |s|
  {
    if s != [] && IsSpace(s[|s| - 1]) then DropTrailingSpaces(s[..|s| - 1]) else s
  }

  /** Trimming white space at either end keeps every visible character. */
  lemma TrimKeepsVisible(s: string)
    ensures Visible(DropSpaces(s)) == Visible(s)
    ensures Visible(DropTrailingSpaces(s)) == Visible(s)
  {
    LeadingTrimKeepsVisible(s);
    TrailingTrimKeepsVisible(s);
  }

  lemma LeadingTrimKeepsVisible(s: string)
    ensures Visible(DropSpaces(s)) == Visible(s)
  {
    var d := DropSpaces(s);
    var spaces := s[..|s| - |d|];
    assert s == spaces + d;
    VisibleConcat(spaces, d);
    VisibleOfSpaces(spaces);
  }

  lemma TrailingTrimKeepsVisible(s: string)
    ensures Visible(DropTrailingSpaces(s)) == Visible(s)
  {
    var t := DropTrailingSpaces(s);
    var spaces := s[|t|..];
    assert s == t + spaces;
    VisibleConcat(t, spaces);
    VisibleOfSpaces(spaces);
  }

  /** Every run of white space replaced by one blank (`replace(/\s+/g, ' ')`). */
  function Collapse(s: string): (r: string)
    ensures |r| <= |s|
    ensures r == [] <==> s == []
    ensures r != [] ==> (IsSpace(r[0]) <==> IsSpace(s[0]))
    decreases |s|
  {
    if s == [] then []
    else if IsSpace(s[0]) then
      [' '] + Collapse(DropSpaces(s[1..]))
    else
      [s[0]] + Collapse(s[1..])
  }

  /** The collapse leaves single blanks only. */
  lemma {:induction false} CollapseIsTidy(s: string)
    ensures Tidy(Collapse(s))
    decreases |s|
  {
    if s != [] {
      var r := Collapse(s);
      var t := if IsSpace(s[0]) then DropSpaces(s[1..]) else s[1..];
      CollapseIsTidy(t);
      var tail := Collapse(t);
      assert r == [r[0]] + tail;
      assert IsSpace(r[0]) ==> r[0] == ' ';
      assert IsSpace(r[0]) && tail != [] ==> !IsSpace(tail[0]);
      forall i | 0 <= i < |r| - 1
        ensures !(IsSpace(r[i]) && IsSpace(r[i + 1]))
      {
        if i > 0 {
          assert r[i] == tail[i - 1] && r[i + 1] == tail[i];
        }
      }
    }
  }

  /** The collapse keeps every visible character, in order. */
  lemma {:induction false} CollapseKeepsVisible(s: string)
    ensures Visible(Collapse(s)) == Visible(s)
    decreases |s|
  {
    if s != [] {
      if IsSpace(s[0]) {
        var rest := DropSpaces(s[1..]);
        CollapseKeepsVisible(rest);
        TrimKeepsVisible(s[1..]);
        assert Visible(s) == Visible(s[1..]);
        assert Visible([' '] + Collapse(rest)) == Visible(Collapse(rest));
      } else {
        CollapseKeepsVisible(s[1..]);
        assert Visible([s[0]] + Collapse(s[1..])) == [s[0]] + Visible(Collapse(s[1..]));
      }
    }
  }

  /** JavaScript's `str.replace(/\s+/g, ' ').trim()`. */
  function Normalise(s: string): string {
    DropTrailingSpaces(DropSpaces(Collapse(s)))
  }

  /** Normalising leaves single blanks between words and none at the ends,
      and keeps every other character in order. */
  lemma NormaliseSpec(s: string)
    ensures Normalised(Normalise(s))
    ensures Visible(Normalise(s)) == Visible(s)
  {
    var c := Collapse(s);
    CollapseIsTidy(s);
    TrimmedTidyIsNormalised(c);
    CollapseKeepsVisible(s);
    TrimKeepsVisible(c);
    TrimKeepsVisible(DropSpaces(c));
  }

  lemma TrimmedTidyIsNormalised(c: string)
    requires Tidy(c)
    ensures Normalised(DropTrailingSpaces(DropSpaces(c)))
  {
    var d := DropSpaces(c);
    var t := DropTrailingSpaces(d);
    SliceTidy(c, |c| - |d|, |c|);
    assert d == c[|c| - |d|..|c|];
    SliceTidy(d, 0, |t|);
    assert t == d[0..|t|];
    if t != [] {
      assert t[0] == d[0];
    }
  }

  lemma SliceTidy(s: string, i: int, j: int)
    requires Tidy(s) && 0 <= i <= j <= |s|
    ensures Tidy(s[i..j])
  {
    var t := s[i..j];
    forall k | 0 <= k < |t| - 1
      ensures !(IsSpace(t[k]) && IsSpace(t[k + 1]))
    {
      assert t[k] == s[i + k] && t[k + 1] == s[i + k + 1];
    }
  }

  /** A tidy string is its own collapse. */
  lemma {:induction false} CollapseTidy(s: string)
    requires Tidy(s)
    ensures Collapse(s) == s
    decreases |s|
  {
    if s != [] {
      var t := s[1..];
      SliceTidy(s, 1, |s|);
      CollapseTidy(t);
      if IsSpace(s[0]) {
        assert s[0] == ' ';
        assert t != [] ==> !IsSpace(t[0]);
        CollapseSingleSpace(s);
      }
      assert s == [s[0]] + t;
    }
  }

  /** A lone blank at the front is kept as it is. */
  lemma CollapseSingleSpace(s: string)
    requires s != [] && s[0] == ' '
    requires |s| > 1 ==> !IsSpace(s[1])
    ensures Collapse(s) == [' '] + Collapse(s[1..])
  {
    assert DropSpaces(s[1..]) == s[1..];
  }

  predicate StartsVisible(s: string) {
    s != [] && !IsSpace(s[0])
  }

  predicate EndsVisible(s: string) {
    s != [] && !IsSpace(s[|s| - 1])
  }

  lemma ConcatHead<T>(a: seq<T>, b: seq<T>)
    requires a != []
    ensures (a + b)[0] == a[0] && (a + b)[1..] == a[1..] + b
  {
  }

  lemma ConcatLast<T>(a: seq<T>, b: seq<T>)
    requires b != []
    ensures (a + b)[|a + b| - 1] == b[|b| - 1] && (a + b)[..|a + b| - 1] == a + b[..|b| - 1]
  {
  }

  lemma ConsAssoc<T>(c: T, p: seq<T>, q: seq<T>)
    ensures [c] + (p + q) == [c] + p + q
  {
  }

  /** White space is only dropped up to the first visible character. */
  lemma {:induction false} DropSpacesConcat(a: string, b: string)
    requires EndsVisible(a)
    ensures DropSpaces(a + b) == DropSpaces(a) + b
    decreases |a|
  {
    ConcatHead(a, b);
    if IsSpace(a[0]) {
      DropSpacesConcat(a[1..], b);
    }
  }

  lemma {:induction false} DropSpacesSkip(w: string, s: string)
    requires AllSpaces(w)
    ensures DropSpaces(w + s) == DropSpaces(s)
    decreases |w|
  {
    if w == [] {
      assert w + s == s;
    } else {
      ConcatHead(w, s);
      DropSpacesSkip(w[1..], s);
    }
  }

  /** Dropping leading white space keeps a visible last character. */
  lemma DropSpacesEndsVisible(s: string)
    requires EndsVisible(s)
    ensures EndsVisible(DropSpaces(s)) && DropSpaces(s)[|DropSpaces(s)| - 1] == s[|s| - 1]
  {
    var d := DropSpaces(s);
    assert d[|d| - 1] == s[|s| - 1];
  }

  /** A string that is empty or starts visible has nothing to drop, and
      neither has its collapse. */
  lemma DropSpacesOfVisibleStart(s: string)
    requires s == [] || StartsVisible(s)
    ensures DropSpaces(s) == s && DropSpaces(Collapse(s)) == Collapse(s)
  {
  }

  /** Trailing white space is only dropped after the last visible character. */
  lemma {:induction false} DropTrailingConcat(a: string, b: string)
    requires StartsVisible(b)
    ensures DropTrailingSpaces(a + b) == a + DropTrailingSpaces(b)
    decreases |b|
  {
    ConcatLast(a, b);
    if IsSpace(b[|b| - 1]) {
      DropTrailingConcat(a, b[..|b| - 1]);
    }
  }

  lemma {:induction false} DropTrailingOfSpaces(d: string, w: string)
    requires EndsVisible(d) && AllSpaces(w)
    ensures DropTrailingSpaces(d + w) == d
    decreases |w|
  {
    if w == [] {
      assert d + w == d;
    } else {
      ConcatLast(d, w);
      DropTrailingOfSpaces(d, w[..|w| - 1]);
    }
  }

  /** A non-empty run of white space collapses to one blank. */
  lemma CollapseOfSpaces(w: string)
    requires w != [] && AllSpaces(w)
    ensures Collapse(w) == [' ']
  {
  }

  lemma CollapseSpaceStep(s: string)
    requires s != [] && IsSpace(s[0])
    ensures Collapse(s) == [' '] + Collapse(DropSpaces(s[1..]))
  {
  }

  lemma CollapseCharStep(s: string)
    requires s != [] && !IsSpace(s[0])
    ensures Collapse(s) == [s[0]] + Collapse(s[1..])
  {
  }

  /** A run of white space followed by a visible character collapses to one
      blank before the rest. */
  lemma CollapseOfSpacesThen(w: string, y: string)
    requires w != [] && AllSpaces(w) && StartsVisible(y)
    ensures Collapse(w + y) == [' '] + Collapse(y)
  {
    ConcatHead(w, y);
    CollapseSpaceStep(w + y);
    DropSpacesSkip(w[1..], y);
    DropSpacesOfVisibleStart(y);
  }

  /** The collapse of a string ending visibly ends with that character. */
  lemma {:induction false} CollapseEndsVisible(s: string)
    requires EndsVisible(s)
    ensures EndsVisible(Collapse(s))
    decreases |s|
  {
    if IsSpace(s[0]) {
      LeadingRunEndsVisible(s);
      CollapseEndsVisible(DropSpaces(s[1..]));
      CollapseSpaceStep(s);
    } else if |s| > 1 {
      CollapseEndsVisible(s[1..]);
      CollapseCharStep(s);
    }
  }

  /** Collapsing works run by run: a cut just after a visible character
      splits the collapse there. */
  lemma {:induction false} CollapseConcat(a: string, b: string)
    requires EndsVisible(a)
    ensures Collapse(a + b) == Collapse(a) + Collapse(b)
    decreases |a|
  {
    if IsSpace(a[0]) {
      LeadingRunEndsVisible(a);
      CollapseConcat(DropSpaces(a[1..]), b);
      CollapseConcatAfterSpace(a, b);
    } else {
      if |a| > 1 {
        CollapseConcat(a[1..], b);
      }
      CollapseConcatAfterChar(a, b);
    }
  }

  lemma LeadingRunEndsVisible(a: string)
    requires EndsVisible(a) && IsSpace(a[0])
    ensures |a| > 1 && EndsVisible(DropSpaces(a[1..])) && |DropSpaces(a[1..])| < |a|
  {
    var t := a[1..];
    assert t[|t| - 1] == a[|a| - 1];
    DropSpacesEndsVisible(t);
  }

  lemma CollapseConcatAfterSpace(a: string, b: string)
    requires EndsVisible(a) && IsSpace(a[0])
    requires EndsVisible(DropSpaces(a[1..]))
    requires Collapse(DropSpaces(a[1..]) + b) == Collapse(DropSpaces(a[1..])) + Collapse(b)
    ensures Collapse(a + b) == Collapse(a) + Collapse(b)
  {
    ConcatHead(a, b);
    CollapseSpaceStep(a + b);
    CollapseSpaceStep(a);
    DropSpacesConcat(a[1..], b);
    ConsAssoc(' ', Collapse(DropSpaces(a[1..])), Collapse(b));
  }

  lemma CollapseConcatAfterChar(a: string, b: string)
    requires a != [] && !IsSpace(a[0])
    requires |a| > 1 ==> Collapse(a[1..] + b) == Collapse(a[1..]) + Collapse(b)
    ensures Collapse(a + b) == Collapse(a) + Collapse(b)
  {
    ConcatHead(a, b);
    CollapseCharStep(a + b);
    CollapseCharStep(a);
    if |a| == 1 {
      assert a[1..] + b == b;
    } else {
      ConsAssoc(a[0], Collapse(a[1..]), Collapse(b));
    }
  }

  /** Collapsing and dropping leading white space commute. */
  lemma DropSpacesCollapse(s: string)
    ensures DropSpaces(Collapse(s)) == Collapse(DropSpaces(s))
  {
    if s != [] && IsSpace(s[0]) {
      var c := Collapse(DropSpaces(s[1..]));
      DropSpacesOfVisibleStart(DropSpaces(s[1..]));
      CollapseSpaceStep(s);
      ConcatHead([' '], c);
    } else {
      DropSpacesOfVisibleStart(s);
    }
  }

  /** Leading white space does not change the normal form. */
  lemma NormaliseDropsLeadingSpaces(w: string, s: string)
    requires AllSpaces(w)
    ensures Normalise(w + s) == Normalise(s)
  {
    DropSpacesCollapse(w + s);
    DropSpacesCollapse(s);
    DropSpacesSkip(w, s);
  }

  /** White space alone normalises to the empty string. */
  lemma NormaliseOfSpaces(w: string)
    requires AllSpaces(w)
    ensures Normalise(w) == []
  {
    if w != [] {
      CollapseOfSpaces(w);
      assert [' '][1..] == [];
      assert DropSpaces([' ']) == [];
    }
  }

  /** A visible last character followed by white space: the trimmed
      collapse ends at that character. */
  lemma TrimTrailing(c: string, x: string)
    requires EndsVisible(c) && AllSpaces(x)
    ensures DropTrailingSpaces(DropSpaces(c + x)) == DropSpaces(c)
  {
    DropSpacesConcat(c, x);
    DropSpacesEndsVisible(c);
    DropTrailingOfSpaces(DropSpaces(c), x);
  }

  /** A string ending visibly, followed by white space, collapses to its own
      collapse followed by at most one blank. */
  lemma CollapseTrailing(p: string, q: string)
    requires EndsVisible(p) && AllSpaces(q)
    ensures AllSpaces(Collapse(q)) && Collapse(p + q) == Collapse(p) + Collapse(q)
  {
    CollapseConcat(p, q);
    if q != [] {
      CollapseOfSpaces(q);
    }
  }

  /** Trailing white space does not change the normal form. */
  lemma NormaliseDropsTrailingSpaces(s: string, w: string)
    requires AllSpaces(w)
    ensures Normalise(s + w) == Normalise(s)
  {
    var p := DropTrailingSpaces(s);
    if p == [] {
      assert AllSpaces(s) && AllSpaces(s + w);
      NormaliseOfSpaces(s);
      NormaliseOfSpaces(s + w);
    } else {
      var q := s[|p|..];
      assert s == p + q && AllSpaces(q);
      assert s + w == p + (q + w) && AllSpaces(q + w);
      CollapseTrailing(p, q);
      CollapseTrailing(p, q + w);
      CollapseEndsVisible(p);
      TrimTrailing(Collapse(p), Collapse(q));
      TrimTrailing(Collapse(p), Collapse(q + w));
    }
  }

  /** Two collapsed words with one blank between them trim to the trimmed
      words with that blank between them. */
  lemma TrimJoin(cx: string, cy: string)
    requires EndsVisible(cx) && StartsVisible(cy)
    ensures DropTrailingSpaces(DropSpaces(cx + ([' '] + cy)))
         == DropTrailingSpaces(DropSpaces(cx)) + [' '] + DropTrailingSpaces(DropSpaces(cy))
  {
    DropSpacesConcat(cx, [' '] + cy);
    var d := DropSpaces(cx);
    DropSpacesEndsVisible(cx);
    DropTrailingOfSpaces(d, []);
    assert d + [] == d;
    assert d + ([' '] + cy) == (d + [' ']) + cy;
    DropTrailingConcat(d + [' '], cy);
    DropSpacesOfVisibleStart(cy);
  }

  /** Between two words, any run of white space becomes exactly one blank,
      and each side is normalised on its own. With the two laws above and
      `NormalisedIsFixed`, this fixes the normal form of every string. */
  lemma NormaliseJoinsWords(x: string, w: string, y: string)
    requires EndsVisible(x) && w != [] && AllSpaces(w) && StartsVisible(y)
    ensures Normalise(x + w + y) == Normalise(x) + " " + Normalise(y)
  {
    assert x + w + y == x + (w + y);
    CollapseConcat(x, w + y);
    CollapseOfSpacesThen(w, y);
    CollapseEndsVisible(x);
    TrimJoin(Collapse(x), Collapse(y));
  }

  /** Normalising twice is the same as normalising once. */
  lemma NormaliseIdempotent(s: string)
    ensures Normalise(Normalise(s)) == Normalise(s)
  {
    NormaliseSpec(s);
    NormalisedIsFixed(Normalise(s));
  }

  lemma NormalisedIsFixed(t: string)
    requires Normalised(t)
    ensures Normalise(t) == t
  {
    CollapseTidy(t);
  }

  /** Length of the tag `<[^>]+>` at the start of `s`, or 0 when none starts
      there: a `<`, at least one character, and the first `>` after it. */
  function TagLength(s: string): (n: nat)
    ensures n > 0 ==> 3 <= n <= |s| && s[0] == '<' && s[n - 1] == '>'
    ensures n > 0 ==> forall j :: 0 < j < n - 1 ==> s[j] != '>'
  {
    if s == [] || s[0] != '<' then 0
    else
      var j := IndexOf(s[1..], '>');
      if j >= 1 then j + 2 else 0
  }

  /** No tag starts anywhere in `s`. */
  predicate NoTags(s: string) {
    forall i :: 0 <= i < |s| ==> TagLength(s[i..]) == 0
  }

  /** Every tag replaced by one blank (`replace(/<[^>]+>/g, ' ')`), scanning
      left to right as a global regular-expression replace does. */
  function ReplaceTags(s: string): (r: string)
    ensures |r| <= |s|
    decreases |s|
  {
    if s == [] then []
    else
      var n := TagLength(s);
      if n > 0 then [' '] + ReplaceTags(s[n..])
      else [s[0]] + ReplaceTags(s[1..])
  }

  /** The replacement only adds blanks, and text without `<` is untouched. */
  lemma ReplaceTagsChars(s: string)
    ensures forall c :: c in ReplaceTags(s) ==> c == ' ' || c in s
    ensures '<' !in s ==> ReplaceTags(s) == s
  {
    ReplaceTagsOnlyBlanks(s);
    ReplaceTagsPlainText(s);
  }

  lemma {:induction false} ReplaceTagsOnlyBlanks(s: string)
    ensures forall c :: c in ReplaceTags(s) ==> c == ' ' || c in s
    decreases |s|
  {
    if s != [] {
      var n := TagLength(s);
      var k := if n > 0 then n else 1;
      ReplaceTagsOnlyBlanks(s[k..]);
      var r := ReplaceTags(s);
      assert r == [if n > 0 then ' ' else s[0]] + ReplaceTags(s[k..]);
      assert forall c :: c in s[k..] ==> c in s;
    }
  }

  lemma {:induction false} ReplaceTagsPlainText(s: string)
    ensures '<' !in s ==> ReplaceTags(s) == s
    decreases |s|
  {
    if s != [] && '<' !in s {
      assert TagLength(s) == 0;
      ReplaceTagsPlainText(s[1..]);
      assert s == [s[0]] + s[1..];
    }
  }

  /** No tag survives the replacement. */
  lemma {:induction false} ReplaceTagsLeavesNoTag(s: string)
    ensures NoTags(ReplaceTags(s))
    decreases |s|
  {
    if s != [] {
      var r := ReplaceTags(s);
      var n := TagLength(s);
      var t := if n > 0 then s[n..] else s[1..];
      ReplaceTagsLeavesNoTag(t);
      var tail := ReplaceTags(t);
      assert r == [r[0]] + tail;
      if n == 0 && s[0] == '<' && |s| > 1 {
        if s[1] == '>' {
          assert TagLength(t) == 0;
          assert tail[0] == '>';
          assert IndexOf(r[1..], '>') == 0;
        } else {
          assert '>' !in s[1..];
          ReplaceTagsChars(t);
          assert '>' !in tail;
        }
      }
      assert TagLength(r) == 0;
      forall i | 1 <= i < |r|
        ensures TagLength(r[i..]) == 0
      {
        assert r[i..] == tail[i - 1..];
      }
    }
  }

  /** `stripHtml`: tags become blanks, then white space is normalised. */
  function StripHtml(html: string): string {
    Normalise(ReplaceTags(html))
  }

  /** Stripped text is normalised, and text without markup is only
      normalised. */
  lemma StripHtmlSpec(html: string)
    ensures Normalised(StripHtml(html))
    ensures '<' !in html ==> StripHtml(html) == Normalise(html)
  {
    NormaliseSpec(ReplaceTags(html));
    ReplaceTagsChars(html);
  }

  /** ASCII lower-casing. */
  function LowerChar(c: char): char {
    if 'A' <= c <= 'Z' then (c as int + 32) as char else c
  }

  function Lower(s: string): (r: string)
    ensures |r| == |s|
  {
    seq(|s|, i requires 0 <= i < |s| => LowerChar(s[i]))
  }

  /** Lower-casing leaves no upper-case ASCII letter and changes no other
      character. */
  lemma LowerSpec(s: string)
    ensures forall i :: 0 <= i < |s| ==> !('A' <= Lower(s)[i] <= 'Z')
    ensures forall i :: 0 <= i < |s| && !('A' <= s[i] <= 'Z') ==> Lower(s)[i] == s[i]
  {
  }

  lemma LowerSlice(s: string, i: int, j: int)
    requires 0 <= i <= j <= |s|
    ensures Lower(s[i..j]) == Lower(s)[i..j]
  {
  }

  /** `q` occurs in `text` at position `j`. */
  predicate OccursAt(text: string, q: string, j: int) {
    0 <= j && j + |q| <= |text| && text[j..j + |q|] == q
  }

  /** JavaScript's `text.indexOf(q)`: the first position where `q` occurs,
      or -1 (see `FindSubstringSpec`). */
  function FindSubstring(text: string, q: string): (i: int)
    ensures -1 <= i && (i >= 0 ==> i + |q| <= |text|)
  {
    FindFrom(text, q, 0)
  }

  function FindFrom(text: string, q: string, from: nat): (i: int)
    ensures -1 <= i && (i >= 0 ==> from <= i && i + |q| <= |text|)
    decreases |text| - from
  {
    if from + |q| > |text| then -1
    else if text[from..from + |q|] == q then from
    else FindFrom(text, q, from + 1)
  }

  /** The search result is the first occurrence, and -1 means none. */
  lemma FindSubstringSpec(text: string, q: string)
    ensures var i := FindSubstring(text, q);
      && (i >= 0 ==> OccursAt(text, q, i) && forall j :: 0 <= j < i ==> !OccursAt(text, q, j))
      && (i == -1 ==> forall j :: !OccursAt(text, q, j))
  {
    FindFromSpec(text, q, 0);
  }

  lemma {:induction false} FindFromSpec(text: string, q: string, from: nat)
    ensures var i := FindFrom(text, q, from);
      && (i >= 0 ==> OccursAt(text, q, i) && forall j :: from <= j < i ==> !OccursAt(text, q, j))
      && (i == -1 ==> forall j :: from <= j ==> !OccursAt(text, q, j))
    decreases |text| - from
  {
    if from + |q| <= |text| && text[from..from + |q|] != q {
      FindFromSpec(text, q, from + 1);
    }
  }
}
