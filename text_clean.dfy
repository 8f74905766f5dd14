/**
 * text_clean (backend/preprocess_and_train.py): every run of whitespace is
 * replaced by one blank and the ends are stripped; anything that is not a
 * Python str cleans to the empty string.
 */
module TextClean {

  import opened PyStrings

  /** The value handed to text_clean: a Python str, or any other value (None, NaN, a number). */
  datatype PyValue = PyStr(s: string) | PyOther

  /**
   * Python's whitespace: the characters for which str.isspace() holds. These are
   * the characters `\s` matches in a str pattern and the ones str.strip() removes.
   */
  predicate IsSpace(c: char) {
    || c == ' '
    || '\t' <= c <= '\r'
    || '\U{1C}' <= c <= '\U{1F}'
    || c == '\U{85}' || c == '\U{A0}' || c == '\U{1680}'
    || '\U{2000}' <= c <= '\U{200A}'
    || c == '\U{2028}' || c == '\U{2029}' || c == '\U{202F}' || c == '\U{205F}' || c == '\U{3000}'
  }

  /** No whitespace at either end. */
  predicate Trimmed(s: string) {
    s == [] || (!IsSpace(s[0]) && !IsSpace(s[|s| - 1]))
  }

  /** Every whitespace character is a plain blank, and no two whitespace characters touch. */
  predicate SingleSpaced(s: string) {
    && (forall i :: 0 <= i < |s| && IsSpace(s[i]) ==> s[i] == ' ')
    && (forall i :: 0 <= i < |s| - 1 && IsSpace(s[i]) ==> !IsSpace(s[i + 1]))
  }

  /** The shape of every string text_clean returns. */
  predicate IsClean(s: string) {
    Trimmed(s) && SingleSpaced(s)
  }

  /** The characters of `s` that are not whitespace, in order. */
  function NonSpaces(s: string): string {
    if s == [] then [] else (if IsSpace(s[0]) then [] else [s[0]]) + NonSpaces(s[1..])
  }

  /**
   * `re.sub(r'\s+', ' ', s)`: a whitespace character followed by another one is
   * dropped, and the last one of each run becomes a blank.
   */
  function Collapse(s: string): string {
    if s == [] then []
    else if IsSpace(s[0]) then
      if |s| > 1 && IsSpace(s[1]) then Collapse(s[1..]) else [' '] + Collapse(s[1..])
    else [s[0]] + Collapse(s[1..])
  }

  /** The substitution never lengthens, turns a leading run into one blank, and leaves no run of two. */
  lemma {:induction false} CollapseSingleSpaces(s: string)
    ensures |Collapse(s)| <= |s|
    ensures s != [] ==> Collapse(s) != [] && Collapse(s)[0] == (if IsSpace(s[0]) then ' ' else s[0])
    ensures SingleSpaced(Collapse(s))
  {
    if s != [] {
      var t := s[1..];
      CollapseSingleSpaces(t);
      var c := Collapse(t);
      var r := Collapse(s);
      if !IsSpace(s[0]) || !(|s| > 1 && IsSpace(s[1])) {
        forall i | 0 <= i < |r| - 1 && IsSpace(r[i]) ensures !IsSpace(r[i + 1]) {
          if i > 0 {
            assert r[i] == c[i - 1] && r[i + 1] == c[i];
          } else if t != [] {
            assert r[1] == c[0];
          }
        }
      }
    }
  }

  /** `s.lstrip()`: the longest suffix of `s` that does not start with whitespace. */
  function StripLeft(s: string): string {
    if s != [] && IsSpace(s[0]) then StripLeft(s[1..]) else s
  }

  /** lstrip removes a prefix made only of whitespace and stops at the first other character. */
  lemma {:induction false} StripLeftRemovesSpaces(s: string)
    ensures |StripLeft(s)| <= |s| && StripLeft(s) == s[|s| - |StripLeft(s)|..]
    ensures StripLeft(s) == [] || !IsSpace(StripLeft(s)[0])
    ensures forall i :: 0 <= i < |s| - |StripLeft(s)| ==> IsSpace(s[i])
  {
    if s != [] && IsSpace(s[0]) {
      StripLeftRemovesSpaces(s[1..]);
      forall i | 1 <= i < |s| - |StripLeft(s)| ensures IsSpace(s[i]) {
        assert s[i] == s[1..][i - 1];
      }
    }
  }

  /** `s.rstrip()`: the longest prefix of `s` that does not end with whitespace. */
  function StripRight(s: string): string {
    if s != [] && IsSpace(s[|s| - 1]) then StripRight(s[..|s| - 1]) else s
  }

  /** rstrip removes a suffix made only of whitespace and stops at the last other character. */
  lemma {:induction false} StripRightRemovesSpaces(s: string)
    ensures |StripRight(s)| <= |s| && StripRight(s) == s[..|StripRight(s)|]
    ensures StripRight(s) == [] || !IsSpace(StripRight(s)[|StripRight(s)| - 1])
    ensures forall i :: |StripRight(s)| <= i < |s| ==> IsSpace(s[i])
  {
    if s != [] && IsSpace(s[|s| - 1]) {
      StripRightRemovesSpaces(s[..|s| - 1]);
    }
  }

  /** `s.strip()`. */
  function Strip(s: string): string {
    StripRight(StripLeft(s))
  }

  /** text_clean(v). */
  function Clean(v: PyValue): string {
    match v
    case PyStr(s) => Strip(Collapse(s))
    case PyOther => []
  }

  /**
   * What text_clean returns has no whitespace at either end, and every
   * whitespace run inside it is one blank; a value that is not a str gives "".
   */
  lemma CleanIsClean(v: PyValue)
    ensures IsClean(Clean(v))
    ensures v.PyOther? ==> Clean(v) == []
  {
    if v.PyStr? {
      var c := Collapse(v.s);
      var l := StripLeft(c);
      CollapseSingleSpaces(v.s);
      StripLeftRemovesSpaces(c);
      StripRightRemovesSpaces(l);
      SingleSpacedSlice(c, |c| - |l|, |c|);
      SingleSpacedSlice(l, 0, |StripRight(l)|);
    }
  }

  /** A slice of a single-spaced string is single-spaced. */
  lemma SingleSpacedSlice(s: string, i: nat, j: nat)
    requires SingleSpaced(s) && i <= j <= |s|
    ensures SingleSpaced(s[i..j])
  {
    var t := s[i..j];
    forall k | 0 <= k < |t| - 1 && IsSpace(t[k]) ensures !IsSpace(t[k + 1]) {
      assert t[k] == s[i + k] && t[k + 1] == s[i + k + 1];
    }
  }

  /** A single-spaced string is left unchanged by the substitution. */
  lemma {:induction false} CollapseOfSingleSpaced(s: string)
    requires SingleSpaced(s)
    ensures Collapse(s) == s
  {
    if s != [] {
      SingleSpacedSlice(s, 1, |s|);
      CollapseOfSingleSpaced(s[1..]);
      if IsSpace(s[0]) {
        assert |s| > 1 ==> !IsSpace(s[1]);
      }
    }
  }

  /** The strings text_clean leaves unchanged are exactly the clean ones. */
  lemma CleanFixpoint(s: string)
    ensures Clean(PyStr(s)) == s <==> IsClean(s)
  {
    CleanIsClean(PyStr(s));
    if IsClean(s) {
      CollapseOfSingleSpaced(s);
    }
  }

  /** text_clean is idempotent. */
  lemma CleanIdempotent(v: PyValue)
    ensures Clean(PyStr(Clean(v))) == Clean(v)
  {
    CleanIsClean(v);
    CleanFixpoint(Clean(v));
  }

  lemma {:induction false} NonSpacesAppend(a: string, b: string)
    ensures NonSpaces(a + b) == NonSpaces(a) + NonSpaces(b)
  {
    if a != [] {
      assert (a + b)[1..] == a[1..] + b;
      NonSpacesAppend(a[1..], b);
    } else {
      assert a + b == b;
    }
  }

  /** A string made only of whitespace has no content. */
  lemma {:induction false} NonSpacesOfBlank(s: string)
    requires forall i :: 0 <= i < |s| ==> IsSpace(s[i])
    ensures NonSpaces(s) == []
  {
    if s != [] {
      NonSpacesOfBlank(s[1..]);
    }
  }

  /** The substitution only touches whitespace. */
  lemma {:induction false} CollapseKeepsContent(s: string)
    ensures NonSpaces(Collapse(s)) == NonSpaces(s)
  {
    if s != [] {
      CollapseKeepsContent(s[1..]);
      var c := Collapse(s[1..]);
      if IsSpace(s[0]) {
        if !(|s| > 1 && IsSpace(s[1])) {
          assert ([' '] + c)[1..] == c;
        }
      } else {
        assert ([s[0]] + c)[1..] == c;
      }
    }
  }

  /** lstrip removes only whitespace. */
  lemma StripLeftKeepsContent(s: string)
    ensures NonSpaces(StripLeft(s)) == NonSpaces(s)
  {
    var l := StripLeft(s);
    StripLeftRemovesSpaces(s);
    var k := |s| - |l|;
    assert s == s[..k] + l;
    NonSpacesOfBlank(s[..k]);
    NonSpacesAppend(s[..k], l);
  }

  /** rstrip removes only whitespace. */
  lemma StripRightKeepsContent(s: string)
    ensures NonSpaces(StripRight(s)) == NonSpaces(s)
  {
    var r := StripRight(s);
    StripRightRemovesSpaces(s);
    assert s == r + s[|r|..];
    NonSpacesOfBlank(s[|r|..]);
    NonSpacesAppend(r, s[|r|..]);
  }

  /** Stripping removes only whitespace. */
  lemma StripKeepsContent(s: string)
    ensures NonSpaces(Strip(s)) == NonSpaces(s)
  {
    StripLeftKeepsContent(s);
    StripRightKeepsContent(StripLeft(s));
  }

  /** text_clean keeps every non-whitespace character, in order, and nothing else. */
  lemma CleanKeepsContent(s: string)
    ensures NonSpaces(Clean(PyStr(s))) == NonSpaces(s)
  {
    CollapseKeepsContent(s);
    StripKeepsContent(Collapse(s));
  }

  /** No whitespace anywhere. */
  predicate NoSpace(w: string) {
    forall i :: 0 <= i < |w| ==> !IsSpace(w[i])
  }

  /**
   * `s.split()`: the maximal runs of non-whitespace characters, in order. Each
   * character either starts a new word or extends the word begun by its left
   * neighbour.
   */
  function Words(s: string): (ws: seq<string>)
    ensures s != [] && !IsSpace(s[0]) ==> ws != [] && ws[0] != [] && ws[0][0] == s[0]
    ensures forall k :: 0 <= k < |ws| ==> ws[k] != [] && NoSpace(ws[k])
  {
    if s == [] then []
    else
      var ws := Words(s[1..]);
      if IsSpace(s[0]) then ws
      else if |s| > 1 && !IsSpace(s[1]) then [[s[0]] + ws[0]] + ws[1..]
      else [[s[0]]] + ws
  }

  /** Prefixing a character to the first word prefixes it to the join. */
  lemma JoinExtendFirst(c: char, ws: seq<string>, sep: string)
    requires ws != []
    ensures Join([[c] + ws[0]] + ws[1..], sep) == [c] + Join(ws, sep)
  {
    var vs := [[c] + ws[0]] + ws[1..];
    if |ws| > 1 {
      assert vs[1..] == ws[1..];
    }
  }

  /** A clean string is its own words joined with blanks. */
  lemma {:induction false} CleanIsJoinOfWords(t: string)
    requires IsClean(t)
    ensures Join(Words(t), " ") == t
  {
    if |t| > 1 {
      var t1 := t[1..];
      SingleSpacedSlice(t, 1, |t|);
      if !IsSpace(t1[0]) {
        CleanIsJoinOfWords(t1);
        var ws := Words(t1);
        JoinExtendFirst(t[0], ws, " ");
        assert [ws[0]] + ws[1..] == ws;
        assert t == [t[0]] + t1;
      } else {
        var t2 := t1[1..];
        assert t1[0] == ' ' && |t1| > 1 && !IsSpace(t1[1]);
        SingleSpacedSlice(t, 2, |t|);
        assert t2 == t[2..];
        CleanIsJoinOfWords(t2);
        assert t == [t[0]] + " " + t2;
      }
    }
  }

  /** The substitution does not change the words. */
  lemma {:induction false} WordsOfCollapse(s: string)
    ensures Words(Collapse(s)) == Words(s)
  {
    if s != [] {
      WordsOfCollapse(s[1..]);
      CollapseSingleSpaces(s[1..]);
      var c := Collapse(s[1..]);
      if IsSpace(s[0]) {
        if !(|s| > 1 && IsSpace(s[1])) {
          assert ([' '] + c)[1..] == c;
        }
      } else {
        assert ([s[0]] + c)[1..] == c;
      }
    }
  }

  /** Leading whitespace does not change the words. */
  lemma {:induction false} WordsOfStripLeft(s: string)
    ensures Words(StripLeft(s)) == Words(s)
  {
    if s != [] && IsSpace(s[0]) {
      WordsOfStripLeft(s[1..]);
    }
  }

  /** A trailing whitespace character does not change the words. */
  lemma {:induction false} WordsDropTrailingSpace(s: string)
    requires s != [] && IsSpace(s[|s| - 1])
    ensures Words(s[..|s| - 1]) == Words(s)
  {
    if |s| > 1 {
      var p := s[..|s| - 1];
      WordsDropTrailingSpace(s[1..]);
      assert p[1..] == s[1..][..|s| - 2];
    }
  }

  /** Trailing whitespace does not change the words. */
  lemma {:induction false} WordsOfStripRight(s: string)
    ensures Words(StripRight(s)) == Words(s)
  {
    if s != [] && IsSpace(s[|s| - 1]) {
      WordsOfStripRight(s[..|s| - 1]);
      WordsDropTrailingSpace(s);
    }
  }

  /** text_clean(s) is `" ".join(s.split())`. */
  lemma CleanIsJoinedWords(s: string)
    ensures Clean(PyStr(s)) == Join(Words(s), " ")
  {
    var c := Collapse(s);
    WordsOfCollapse(s);
    WordsOfStripLeft(c);
    WordsOfStripRight(StripLeft(c));
    CleanIsClean(PyStr(s));
    CleanIsJoinOfWords(Clean(PyStr(s)));
  }
}
