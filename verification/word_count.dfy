/** Word splitting and wrong-word counting for the text area: the text is
    trimmed, split at runs of whitespace, and every word whose lower-case form
    is not in the dictionary counts as an error. */
module WordCount {

  /** The characters JavaScript's `trim` removes and the regular expression
      class `\s` matches: the ECMAScript WhiteSpace and LineTerminator code points. */
  predicate IsSpace(c: char) {
    c == '\t' || c == '\n' || c == '\U{B}' || c == '\U{C}' || c == '\r' || c == ' ' ||
    c == '\U{A0}' || c == '\U{1680}' || ('\U{2000}' <= c <= '\U{200A}') ||
    c == '\U{2028}' || c == '\U{2029}' || c == '\U{202F}' || c == '\U{205F}' ||
    c == '\U{3000}' || c == '\U{FEFF}'
  }

  predicate NoSpace(s: string) {
    forall i :: 0 <= i < |s| ==> !IsSpace(s[i])
  }

  predicate Blank(s: string) {
    forall i :: 0 <= i < |s| ==> IsSpace(s[i])
  }

  function TrimStart(s: string): (r: string)
    ensures |r| <= |s| && r == s[|s| - |r|..]
    ensures r == [] || !IsSpace(r[0])
    ensures forall i :: 0 <= i < |s| - |r| ==> IsSpace(s[i])
  {
    if s != [] && IsSpace(s[0]) then TrimStart(s[1..]) else s
  }

  function TrimEnd(s: string): (r: string)
    ensures |r| <= |s| && r == s[..|r|]
    ensures r == [] || !IsSpace(r[|r| - 1])
    ensures forall i :: |r| <= i < |s| ==> IsSpace(s[i])
  {
    if s != [] && IsSpace(s[|s| - 1]) then TrimEnd(s[..|s| - 1]) else s
  }

  lemma BlankBefore(s: string, a: nat)
    requires a <= |s|
    requires forall i :: 0 <= i < a ==> IsSpace(s[i])
    ensures Blank(s[..a])
  {
  }

  lemma BlankFrom(s: string, b: nat)
    requires b <= |s|
    requires forall i :: b <= i < |s| ==> IsSpace(s[i])
    ensures Blank(s[b..])
  {
    forall i | 0 <= i < |s| - b ensures IsSpace(s[b..][i]) {
      assert s[b..][i] == s[b + i];
    }
  }

  lemma SliceOfSuffix(s: string, a: nat, k: nat)
    requires a + k <= |s|
    ensures s[a..][..k] == s[a..a + k] && s[a..][k..] == s[a + k..]
  {
  }

  /** A blank prefix cut off, then a blank suffix cut off: what is left is a
      slice of the original between a blank prefix and a blank suffix. */
  lemma TrimSlices(s: string, t: string, r: string)
    requires |t| <= |s| && t == s[|s| - |t|..]
    requires forall i :: 0 <= i < |s| - |t| ==> IsSpace(s[i])
    requires |r| <= |t| && r == t[..|r|]
    requires forall i :: |r| <= i < |t| ==> IsSpace(t[i])
    ensures var a := |s| - |t|; var b := a + |r|;
      r == s[a..b] && Blank(s[..a]) && Blank(s[b..])
  {
    var a := |s| - |t|;
    BlankBefore(s, a);
    SliceOfSuffix(s, a, |r|);
    BlankFrom(t, |r|);
  }

  /** `String.prototype.trim`: the text between a blank prefix and a blank
      suffix, with neither end of the result a whitespace character. */
  function Trim(s: string): (r: string)
    ensures r == [] <==> Blank(s)
    ensures r != [] ==> !IsSpace(r[0]) && !IsSpace(r[|r| - 1])
    ensures exists a, b :: 0 <= a <= b <= |s| && r == s[a..b] && Blank(s[..a]) && Blank(s[b..])
  {
    var t := TrimStart(s);
    assert Blank(s) ==> t == [];
    var r := TrimEnd(t);
    TrimSlices(s, t, r);
    r
  }

  /** `s.split(/\s+/)`: the pieces between maximal runs of whitespace. A
      leading or trailing run yields an empty first or last piece, and the
      empty string yields the single piece "". */
  function SplitOnSpaces(s: string): (parts: seq<string>)
    ensures |parts| >= 1
    ensures forall p :: p in parts ==> NoSpace(p)
    decreases |s|
  {
    if s == [] then [""]
    else if IsSpace(s[0]) then
      assert |TrimStart(s)| < |s|;
      [""] + SplitOnSpaces(TrimStart(s))
    else
      var rest := SplitOnSpaces(s[1..]);
      assert rest[0] in rest;
      assert forall p :: p in rest[1..] ==> p in rest;
      [[s[0]] + rest[0]] + rest[1..]
  }

  lemma {:induction false} SplitHasNoEmptyPiece(s: string)
    requires s != [] && !IsSpace(s[0]) && !IsSpace(s[|s| - 1])
    ensures forall p :: p in SplitOnSpaces(s) ==> p != ""
    decreases |s|
  {
    var tail := s[1..];
    var rest := SplitOnSpaces(tail);
    assert SplitOnSpaces(s) == [[s[0]] + rest[0]] + rest[1..];
    if tail != [] {
      assert tail[|tail| - 1] == s[|s| - 1];
      if IsSpace(tail[0]) {
        var t := TrimStart(tail);
        assert t != [] && t[|t| - 1] == s[|s| - 1];
        SplitHasNoEmptyPiece(t);
        assert rest[1..] == SplitOnSpaces(t);
      } else {
        SplitHasNoEmptyPiece(tail);
        assert forall p :: p in rest[1..] ==> p in rest;
      }
    }
  }

  /** The words of the text area, `value.trim().split(/\s+/)`: a blank text
      yields exactly one word, the empty one; any other text yields only
      non-empty words. Words never contain whitespace. */
  function Words(text: string): (ws: seq<string>)
    ensures |ws| >= 1
    ensures forall w :: w in ws ==> NoSpace(w)
    ensures Blank(text) <==> ws == [""]
    ensures !Blank(text) ==> forall w :: w in ws ==> w != ""
  {
    var t := Trim(text);
    SplitOfTrimmed(t);
    SplitOnSpaces(t)
  }

  lemma SplitOfTrimmed(t: string)
    requires t != [] ==> !IsSpace(t[0]) && !IsSpace(t[|t| - 1])
    ensures t == [] <==> SplitOnSpaces(t) == [""]
    ensures t != [] ==> forall w :: w in SplitOnSpaces(t) ==> w != ""
  {
    if t != [] {
      SplitHasNoEmptyPiece(t);
      var ws := SplitOnSpaces(t);
      assert ws[0] in ws;
    }
  }

  /** The characters of `s` that are not whitespace, in order. */
  function WithoutSpaces(s: string): string
    decreases |s|
  {
    if s == [] then [] else (if IsSpace(s[0]) then [] else [s[0]]) + WithoutSpaces(s[1..])
  }

  /** The pieces written one after another. */
  function Concat(parts: seq<string>): string
    decreases |parts|
  {
    if parts == [] then [] else parts[0] + Concat(parts[1..])
  }

  lemma {:induction false} WithoutSpacesAppend(x: string, y: string)
    ensures WithoutSpaces(x + y) == WithoutSpaces(x) + WithoutSpaces(y)
    decreases |x|
  {
    if x != [] {
      WithoutSpacesAppend(x[1..], y);
      assert (x + y)[1..] == x[1..] + y;
    } else {
      assert x + y == y;
    }
  }

  lemma {:induction false} WithoutSpacesBlank(s: string)
    requires Blank(s)
    ensures WithoutSpaces(s) == []
    decreases |s|
  {
    if s != [] {
      WithoutSpacesBlank(s[1..]);
    }
  }

  lemma SplitAt(s: string, k: nat)
    requires k <= |s|
    ensures s == s[..k] + s[k..]
  {
  }

  lemma WithoutSpacesTrimStart(s: string)
    ensures WithoutSpaces(TrimStart(s)) == WithoutSpaces(s)
  {
    var t := TrimStart(s);
    var k := |s| - |t|;
    var lead := s[..k];
    SplitAt(s, k);
    assert Blank(lead);
    WithoutSpacesAppend(lead, t);
    WithoutSpacesBlank(lead);
  }

  lemma ConsAppend(c: char, p: string, q: string)
    ensures [c] + p + q == [c] + (p + q)
  {
  }

  /** Splitting loses no character but the whitespace: the pieces written
      together are the text with every whitespace character removed. */
  lemma {:induction false} SplitKeepsLetters(s: string)
    ensures Concat(SplitOnSpaces(s)) == WithoutSpaces(s)
    decreases |s|
  {
    if s == [] {
    } else if IsSpace(s[0]) {
      var t := TrimStart(s);
      SplitKeepsLetters(t);
      WithoutSpacesTrimStart(s);
      var parts := [""] + SplitOnSpaces(t);
      assert parts[0] == "" && parts[1..] == SplitOnSpaces(t);
      assert Concat(parts) == "" + Concat(SplitOnSpaces(t));
    } else {
      var rest := SplitOnSpaces(s[1..]);
      SplitKeepsLetters(s[1..]);
      var parts := [[s[0]] + rest[0]] + rest[1..];
      assert parts[0] == [s[0]] + rest[0] && parts[1..] == rest[1..];
      assert Concat(rest) == rest[0] + Concat(rest[1..]);
      ConsAppend(s[0], rest[0], Concat(rest[1..]));
    }
  }

  lemma ThreePieces(s: string, a: nat, b: nat)
    requires a <= b <= |s|
    ensures s == s[..a] + (s[a..b] + s[b..])
  {
  }

  /** The words of any text, written together, are its non-whitespace characters. */
  lemma WordsKeepLetters(text: string)
    ensures Concat(Words(text)) == WithoutSpaces(text)
  {
    var r := Trim(text);
    var a, b :| 0 <= a <= b <= |text| && r == text[a..b] && Blank(text[..a]) && Blank(text[b..]);
    var lead, trail := text[..a], text[b..];
    ThreePieces(text, a, b);
    WithoutSpacesAppend(lead, r + trail);
    WithoutSpacesAppend(r, trail);
    WithoutSpacesBlank(lead);
    WithoutSpacesBlank(trail);
    SplitKeepsLetters(r);
    assert WithoutSpaces(text) == [] + (WithoutSpaces(r) + []);
  }

  /** A run of whitespace between two words. */
  predicate Gap(g: string) {
    g != [] && Blank(g)
  }

  /** words[0] + gaps[0] + words[1] + ... + words[|words| - 1]. */
  function JoinWith(words: seq<string>, gaps: seq<string>): string
    requires |words| >= 1 && |gaps| == |words| - 1
  {
    if |words| == 1 then words[0] else words[0] + (gaps[0] + JoinWith(words[1..], gaps[1..]))
  }

  lemma {:induction false} SplitAfterWord(w: string, t: string)
    requires NoSpace(w)
    requires t == [] || IsSpace(t[0])
    ensures var r := SplitOnSpaces(t);
      SplitOnSpaces(w + t) == [w + r[0]] + r[1..]
    decreases |w|
  {
    var r := SplitOnSpaces(t);
    if w == [] {
      assert w + t == t;
      assert r == [w + r[0]] + r[1..];
    } else {
      SplitAfterWord(w[1..], t);
      assert (w + t)[1..] == w[1..] + t;
      var rest := SplitOnSpaces(w[1..] + t);
      assert rest == [w[1..] + r[0]] + r[1..];
      assert SplitOnSpaces(w + t) == [[w[0]] + rest[0]] + rest[1..];
      assert [w[0]] + (w[1..] + r[0]) == w + r[0];
    }
  }

  lemma {:induction false} JoinShape(words: seq<string>, gaps: seq<string>)
    requires |words| >= 1 && |gaps| == |words| - 1
    requires forall w :: w in words ==> w != "" && NoSpace(w)
    ensures var j := JoinWith(words, gaps); j != [] && !IsSpace(j[0]) && !IsSpace(j[|j| - 1])
    decreases |words|
  {
    assert words[0] in words;
    if |words| > 1 {
      assert forall w :: w in words[1..] ==> w in words;
      JoinShape(words[1..], gaps[1..]);
    }
  }

  /** Whitespace in front of a text that starts with a non-space is what trim removes. */
  lemma {:induction false} TrimStartBlank(g: string, rest: string)
    requires Blank(g)
    requires rest == [] || !IsSpace(rest[0])
    ensures TrimStart(g + rest) == rest
    decreases |g|
  {
    if g == [] {
      assert g + rest == rest;
    } else {
      assert (g + rest)[1..] == g[1..] + rest;
      TrimStartBlank(g[1..], rest);
    }
  }

  /** Whitespace after a text that ends with a non-space is what trim removes. */
  lemma {:induction false} TrimEndBlank(body: string, g: string)
    requires Blank(g)
    requires body == [] || !IsSpace(body[|body| - 1])
    ensures TrimEnd(body + g) == body
    decreases |g|
  {
    if g == [] {
      assert body + g == body;
    } else {
      var h := g[..|g| - 1];
      assert (body + g)[..|body + g| - 1] == body + h;
      TrimEndBlank(body, h);
    }
  }

  lemma SplitAfterGap(g: string, rest: string)
    requires Gap(g)
    requires rest != [] && !IsSpace(rest[0])
    ensures SplitOnSpaces(g + rest) == [""] + SplitOnSpaces(rest)
  {
    TrimStartBlank(g, rest);
  }

  lemma JoinStep(w: string, g: string, tail: seq<string>, gaps: seq<string>)
    requires NoSpace(w) && Gap(g) && |tail| >= 1 && |gaps| == |tail| - 1
    requires var rest := JoinWith(tail, gaps); rest != [] && !IsSpace(rest[0])
    requires SplitOnSpaces(JoinWith(tail, gaps)) == tail
    ensures SplitOnSpaces(JoinWith([w] + tail, [g] + gaps)) == [w] + tail
  {
    var rest := JoinWith(tail, gaps);
    SplitAfterGap(g, rest);
    var r := SplitOnSpaces(g + rest);
    assert r == [""] + tail;
    SplitAfterWord(w, g + rest);
    assert SplitOnSpaces(w + (g + rest)) == [w + r[0]] + r[1..];
    assert r[0] == "" && r[1..] == tail;
    assert w + r[0] == w;
    assert ([w] + tail)[1..] == tail && ([g] + gaps)[1..] == gaps;
    assert JoinWith([w] + tail, [g] + gaps) == w + (g + rest);
  }

  /** Splitting non-empty words joined by any whitespace runs gives the words back. */
  lemma {:induction false} SplitJoinRoundTrip(words: seq<string>, gaps: seq<string>)
    requires |words| >= 1 && |gaps| == |words| - 1
    requires forall w :: w in words ==> w != "" && NoSpace(w)
    requires forall g :: g in gaps ==> Gap(g)
    ensures SplitOnSpaces(JoinWith(words, gaps)) == words
    decreases |words|
  {
    var w := words[0];
    assert w in words;
    if |words| == 1 {
      SplitAfterWord(w, []);
      assert w + [] == w;
    } else {
      var tail, tailGaps := words[1..], gaps[1..];
      assert forall v :: v in tail ==> v in words;
      assert forall g :: g in tailGaps ==> g in gaps;
      assert gaps[0] in gaps;
      SplitJoinRoundTrip(tail, tailGaps);
      JoinShape(tail, tailGaps);
      JoinStep(w, gaps[0], tail, tailGaps);
      assert [w] + tail == words && [gaps[0]] + tailGaps == gaps;
    }
  }

  /** A text made of non-empty words separated by whitespace runs, with any
      whitespace before and after, has exactly those words. */
  lemma WordsOfJoined(lead: string, words: seq<string>, gaps: seq<string>, trail: string)
    requires Blank(lead) && Blank(trail)
    requires |words| >= 1 && |gaps| == |words| - 1
    requires forall w :: w in words ==> w != "" && NoSpace(w)
    requires forall g :: g in gaps ==> Gap(g)
    ensures Words(lead + JoinWith(words, gaps) + trail) == words
  {
    var j := JoinWith(words, gaps);
    JoinShape(words, gaps);
    TrimAround(lead, j, trail);
    SplitJoinRoundTrip(words, gaps);
  }

  /** Trim removes exactly the blank text around a body with non-space ends. */
  lemma TrimAround(lead: string, j: string, trail: string)
    requires Blank(lead) && Blank(trail)
    requires j != [] && !IsSpace(j[0]) && !IsSpace(j[|j| - 1])
    ensures Trim(lead + j + trail) == j
  {
    assert lead + j + trail == lead + (j + trail);
    assert (j + trail)[0] == j[0];
    TrimStartBlank(lead, j + trail);
    TrimEndBlank(j, trail);
  }

  predicate IsUpper(c: char) {
    'A' <= c <= 'Z'
  }

  /** `toLowerCase` on the ASCII letters: no upper-case letter is left, every
      other character is kept, and a changed character moved up by 32. */
  function ToLower(s: string): (r: string)
    ensures |r| == |s|
    ensures forall i :: 0 <= i < |r| ==> !IsUpper(r[i])
    ensures forall i :: 0 <= i < |s| && !IsUpper(s[i]) ==> r[i] == s[i]
    ensures forall i :: 0 <= i < |s| && r[i] != s[i] ==> r[i] as int == s[i] as int + 32
  {
    seq(|s|, i requires 0 <= i < |s| => if IsUpper(s[i]) then (s[i] as int + 32) as char else s[i])
  }

  /** Two strings that differ at most in the case of ASCII letters. */
  predicate SameIgnoringCase(u: string, v: string) {
    |u| == |v| && forall i :: 0 <= i < |u| ==>
      u[i] == v[i] ||
      (IsUpper(u[i]) && v[i] as int == u[i] as int + 32) ||
      (IsUpper(v[i]) && u[i] as int == v[i] as int + 32)
  }

  predicate NoUpper(s: string) {
    forall i :: 0 <= i < |s| ==> !IsUpper(s[i])
  }

  lemma LowerAlike(u: string, v: string)
    requires SameIgnoringCase(u, v)
    ensures ToLower(u) == ToLower(v)
  {
    var lu, lv := ToLower(u), ToLower(v);
    forall i | 0 <= i < |u| ensures lu[i] == lv[i] {
      if lu[i] != u[i] {
        assert lu[i] as int == u[i] as int + 32;
      }
      if lv[i] != v[i] {
        assert lv[i] as int == v[i] as int + 32;
      }
    }
  }

  lemma LowerOfLower(s: string)
    requires NoUpper(s)
    ensures ToLower(s) == s
  {
  }

  /** `dictionary.includes(word.toLowerCase())`: the word matches, up to the
      case of its letters, an entry that has no upper-case letter. Entries
      with an upper-case letter never match anything. */
  predicate Known(word: string, dictionary: seq<string>): (known: bool)
    ensures known <==> exists e :: e in dictionary && NoUpper(e) && SameIgnoringCase(word, e)
  {
    var lower := ToLower(word);
    assert SameIgnoringCase(word, lower);
    assert forall e :: e in dictionary && NoUpper(e) && SameIgnoringCase(word, e) ==> lower == e by {
      forall e | e in dictionary && NoUpper(e) && SameIgnoringCase(word, e) ensures lower == e {
        LowerAlike(word, e);
        LowerOfLower(e);
      }
    }
    lower in dictionary
  }

  /** Lower-casing forgets case, so words that differ only in the case of
      their letters are both known or both wrong. */
  lemma CaseBlind(u: string, v: string, dictionary: seq<string>)
    requires SameIgnoringCase(u, v)
    ensures ToLower(u) == ToLower(v)
    ensures Known(u, dictionary) <==> Known(v, dictionary)
  {
    LowerAlike(u, v);
  }

  lemma MultisetHeadTail(words: seq<string>)
    requires words != []
    ensures multiset(words) == multiset{words[0]} + multiset(words[1..])
  {
    assert words == [words[0]] + words[1..];
  }

  /** `words.filter(w => !dictionary.includes(w.toLowerCase()))`: every
      occurrence of a wrong word is kept, and nothing else. */
  function WrongWords(words: seq<string>, dictionary: seq<string>): (wrong: seq<string>)
    ensures |wrong| <= |words|
    ensures forall w :: w in wrong <==> w in words && !Known(w, dictionary)
    ensures forall w :: multiset(wrong)[w] == if Known(w, dictionary) then 0 else multiset(words)[w]
    decreases |words|
  {
    if words == [] then []
    else
      MultisetHeadTail(words);
      (if Known(words[0], dictionary) then [] else [words[0]]) + WrongWords(words[1..], dictionary)
  }

  /** The words the dictionary accepts: the complement of WrongWords. */
  function KnownWords(words: seq<string>, dictionary: seq<string>): (known: seq<string>)
    ensures forall w :: w in known <==> w in words && Known(w, dictionary)
    ensures forall w :: multiset(known)[w] == if Known(w, dictionary) then multiset(words)[w] else 0
    decreases |words|
  {
    if words == [] then []
    else
      MultisetHeadTail(words);
      (if Known(words[0], dictionary) then [words[0]] else []) + KnownWords(words[1..], dictionary)
  }

  /** Every word is either wrong or known, never both, so the error count
      plus the known count is the word count. */
  lemma {:induction false} WrongAndKnownPartition(words: seq<string>, dictionary: seq<string>)
    ensures |WrongWords(words, dictionary)| + |KnownWords(words, dictionary)| == |words|
    ensures multiset(WrongWords(words, dictionary)) + multiset(KnownWords(words, dictionary)) == multiset(words)
    decreases |words|
  {
    if words != [] {
      WrongAndKnownPartition(words[1..], dictionary);
      MultisetHeadTail(words);
    }
  }

  /** The positions of the wrong words. */
  function WrongPositions(words: seq<string>, dictionary: seq<string>): set<nat> {
    set i: nat | i < |words| && !Known(words[i], dictionary)
  }

  lemma {:induction false} WrongWordsAppend(a: seq<string>, b: seq<string>, dictionary: seq<string>)
    ensures WrongWords(a + b, dictionary) == WrongWords(a, dictionary) + WrongWords(b, dictionary)
    decreases |a|
  {
    if a == [] {
      assert a + b == b;
    } else {
      var ab := a + b;
      assert ab[0] == a[0] && ab[1..] == a[1..] + b;
      var head := if Known(a[0], dictionary) then [] else [a[0]];
      assert WrongWords(ab, dictionary) == head + WrongWords(a[1..] + b, dictionary);
      assert WrongWords(a, dictionary) == head + WrongWords(a[1..], dictionary);
      WrongWordsAppend(a[1..], b, dictionary);
      AppendAssoc(head, WrongWords(a[1..], dictionary), WrongWords(b, dictionary));
    }
  }

  lemma AppendAssoc(x: seq<string>, y: seq<string>, z: seq<string>)
    ensures x + (y + z) == (x + y) + z
  {
  }

  lemma InitLast(words: seq<string>)
    requires words != []
    ensures words == words[..|words| - 1] + [words[|words| - 1]]
  {
  }

  lemma PositionsOfAppended(init: seq<string>, last: string, dictionary: seq<string>)
    ensures var n := |init|;
      WrongPositions(init + [last], dictionary) ==
      WrongPositions(init, dictionary) + (if Known(last, dictionary) then {} else {n})
    ensures |init| !in WrongPositions(init, dictionary)
  {
    var words := init + [last];
    var n := |init|;
    forall i: nat | i < n ensures words[i] == init[i] {
    }
    assert words[n] == last;
  }

  lemma PositionCountStep(init: seq<string>, last: string, dictionary: seq<string>)
    ensures |WrongPositions(init + [last], dictionary)| ==
      |WrongPositions(init, dictionary)| + if Known(last, dictionary) then 0 else 1
  {
    PositionsOfAppended(init, last, dictionary);
    var A := WrongPositions(init, dictionary);
    if !Known(last, dictionary) {
      assert |A + {|init|}| == |A| + 1;
    }
  }

  lemma WrongCountStep(init: seq<string>, last: string, dictionary: seq<string>)
    ensures |WrongWords(init + [last], dictionary)| ==
      |WrongWords(init, dictionary)| + if Known(last, dictionary) then 0 else 1
  {
    WrongWordsAppend(init, [last], dictionary);
    var one := [last];
    assert one[0] == last && one[1..] == [];
    assert WrongWords(one, dictionary) == if Known(last, dictionary) then [] else [last];
  }

  /** The filter keeps one word per wrong position: the error count is the
      number of indices whose word is wrong. */
  lemma {:induction false} WrongCountIsPositions(words: seq<string>, dictionary: seq<string>)
    ensures |WrongWords(words, dictionary)| == |WrongPositions(words, dictionary)|
    decreases |words|
  {
    if words != [] {
      var n := |words| - 1;
      var init, last := words[..n], words[n];
      WrongCountIsPositions(init, dictionary);
      InitLast(words);
      WrongCountStep(init, last, dictionary);
      PositionCountStep(init, last, dictionary);
    }
  }

  /** The error count shown for a text: one per wrong word position. */
  function ErrorCount(text: string, dictionary: seq<string>): (n: nat)
    ensures n <= |Words(text)|
    ensures n == |WrongPositions(Words(text), dictionary)|
  {
    WrongCountIsPositions(Words(text), dictionary);
    |WrongWords(Words(text), dictionary)|
  }

  /** A blank text area still holds one word, "", so it shows one error
      unless the dictionary holds the empty string. */
  lemma BlankTextErrors(text: string, dictionary: seq<string>)
    requires Blank(text)
    ensures ErrorCount(text, dictionary) == if "" in dictionary then 0 else 1
  {
    assert ToLower("") == "";
  }
}
