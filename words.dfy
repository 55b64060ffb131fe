/**
 * The dictionary of src/WordList.java: a set of words kept in a normal form
 * (surrounding white space removed, letters in lower case).  Words are
 * normalised on the way in and every query is normalised the same way, so
 * "  FiRst " and "first" are one word.
 */
module Words {
  import opened Errors

  /** The characters the source's trim removes: everything up to the space character. */
  predicate IsWhitespace(c: char) {
    c <= ' '
  }

  predicate IsUpper(c: char) {
    'A' <= c <= 'Z'
  }

  /** Lower-cases one character (ASCII letters only; see README). */
  function ToLowerChar(c: char): (d: char)
    ensures !IsUpper(d)
    ensures IsUpper(c) ==> d as int == c as int + ('a' as int - 'A' as int)
    ensures !IsUpper(c) ==> d == c
    ensures IsWhitespace(d) <==> IsWhitespace(c)
  {
    if IsUpper(c) then (c as int + ('a' as int - 'A' as int)) as char else c
  }

  function ToLower(s: string): (r: string)
    ensures |r| == |s|
    ensures forall k :: 0 <= k < |s| ==> r[k] == ToLowerChar(s[k])
  {
    seq(|s|, k requires 0 <= k < |s| => ToLowerChar(s[k]))
  }

  /** s without its leading white space: the longest suffix that starts with a non-blank. */
  function TrimStart(s: string): (r: string)
    ensures |r| <= |s| && r == s[|s| - |r|..]
    ensures forall k :: 0 <= k < |s| - |r| ==> IsWhitespace(s[k])
    ensures r == [] || !IsWhitespace(r[0])
  {
    if s != [] && IsWhitespace(s[0]) then TrimStart(s[1..]) else s
  }

  /** s without its trailing white space: the longest prefix that ends with a non-blank. */
  function TrimEnd(s: string): (r: string)
    ensures |r| <= |s| && r == s[..|r|]
    ensures forall k :: |r| <= k < |s| ==> IsWhitespace(s[k])
    ensures r == [] || !IsWhitespace(r[|r| - 1])
  {
    if s != [] && IsWhitespace(s[|s| - 1]) then TrimEnd(s[..|s| - 1]) else s
  }

  /** String.trim: white space removed from both ends. */
  function Trim(s: string): (r: string)
    ensures r == [] || (!IsWhitespace(r[0]) && !IsWhitespace(r[|r| - 1]))
    ensures exists a :: Framed(s, a, r)
  {
    var t := TrimStart(s);
    var r := TrimEnd(t);
    assert r != [] ==> r[0] == t[0];
    var a := |s| - |t|;
    assert r == s[a..a + |r|];
    assert forall k :: a + |r| <= k < |s| ==> s[k] == t[k - a];
    assert Framed(s, a, r);
    r
  }

  /** s is r with only blanks before it (a of them) and only blanks after it. */
  predicate Framed(s: string, a: int, r: string) {
    && 0 <= a <= |s| - |r| && r == s[a..a + |r|]
    && (forall k :: 0 <= k < a ==> IsWhitespace(s[k]))
    && (forall k :: a + |r| <= k < |s| ==> IsWhitespace(s[k]))
  }

  /** The form in which words are stored: no blank at either end, no upper-case letter. */
  predicate IsNormal(w: string) {
    && (w == [] || (!IsWhitespace(w[0]) && !IsWhitespace(w[|w| - 1])))
    && forall k :: 0 <= k < |w| ==> !IsUpper(w[k])
  }

  /** processWord: trimmed, then lower-cased. */
  function ProcessWord(w: string): (r: string)
    ensures |r| <= |w|
  {
    ToLower(Trim(w))
  }

  /** Lower-casing a word with no blank at either end gives a word in normal form. */
  lemma ToLowerIsNormal(t: string)
    requires t == [] || (!IsWhitespace(t[0]) && !IsWhitespace(t[|t| - 1]))
    ensures IsNormal(ToLower(t))
  {
    var r := ToLower(t);
    if r != [] {
      assert r[0] == ToLowerChar(t[0]);
      assert r[|r| - 1] == ToLowerChar(t[|t| - 1]);
    }
  }

  /** Whatever it is given, processWord returns a word in normal form. */
  lemma ProcessWordIsNormal(w: string)
    ensures IsNormal(ProcessWord(w))
  {
    ToLowerIsNormal(Trim(w));
  }

  /** Lower-casing a word with no upper-case letter leaves it as it is. */
  lemma ToLowerOfLower(w: string)
    requires forall k :: 0 <= k < |w| ==> !IsUpper(w[k])
    ensures ToLower(w) == w
  {
    var r := ToLower(w);
    assert forall k :: 0 <= k < |w| ==> r[k] == w[k];
  }

  /** Trimming a word with no blank at either end leaves it as it is. */
  lemma TrimOfTrimmed(w: string)
    requires w == [] || (!IsWhitespace(w[0]) && !IsWhitespace(w[|w| - 1]))
    ensures Trim(w) == w
  {
    assert TrimStart(w) == w;
    assert TrimEnd(w) == w;
  }

  /** A word is in normal form exactly when processing leaves it as it is. */
  lemma NormalIffFixedPoint(w: string)
    ensures IsNormal(w) <==> ProcessWord(w) == w
  {
    ProcessWordIsNormal(w);
    if IsNormal(w) {
      TrimOfTrimmed(w);
      ToLowerOfLower(w);
    }
  }

  /** Processing twice is processing once. */
  lemma ProcessWordIdempotent(w: string)
    ensures ProcessWord(ProcessWord(w)) == ProcessWord(w)
  {
    NormalIffFixedPoint(ProcessWord(w));
  }

  /** Blanks before and after a word, on either side or both, do not matter. */
  lemma ProcessWordIgnoresPadding(w: string, pre: string, post: string)
    requires forall k :: 0 <= k < |pre| ==> IsWhitespace(pre[k])
    requires forall k :: 0 <= k < |post| ==> IsWhitespace(post[k])
    ensures ProcessWord(pre + w + post) == ProcessWord(w)
  {
    assert pre + w + post == pre + (w + post);
    PadStart(w + post, pre);
    TrimStartAppend(w, post);
  }

  /** Lower-casing commutes with removing leading blanks. */
  lemma {:induction false} TrimStartToLower(s: string)
    ensures TrimStart(ToLower(s)) == ToLower(TrimStart(s))
  {
    if s != [] && IsWhitespace(s[0]) {
      assert ToLower(s)[1..] == ToLower(s[1..]);
      TrimStartToLower(s[1..]);
    }
  }

  /** Lower-casing commutes with removing trailing blanks. */
  lemma {:induction false} TrimEndToLower(s: string)
    ensures TrimEnd(ToLower(s)) == ToLower(TrimEnd(s))
  {
    if s != [] && IsWhitespace(s[|s| - 1]) {
      assert ToLower(s)[..|s| - 1] == ToLower(s[..|s| - 1]);
      TrimEndToLower(s[..|s| - 1]);
    }
  }

  /** The case of a word's letters does not matter: "FiRst" and "first" are one word. */
  lemma ProcessWordIgnoresCase(w: string)
    ensures ProcessWord(ToLower(w)) == ProcessWord(w)
  {
    TrimToLower(w);
    var t := ToLower(Trim(w));
    assert forall k :: 0 <= k < |t| ==> !IsUpper(t[k]);
    ToLowerOfLower(t);
  }

  /** Lower-casing commutes with trimming. */
  lemma TrimToLower(s: string)
    ensures Trim(ToLower(s)) == ToLower(Trim(s))
  {
    TrimStartToLower(s);
    TrimEndToLower(TrimStart(s));
  }

  lemma {:induction false} PadStart(s: string, pad: string)
    requires forall k :: 0 <= k < |pad| ==> IsWhitespace(pad[k])
    ensures TrimStart(pad + s) == TrimStart(s)
  {
    if pad != [] {
      assert (pad + s)[0] == pad[0];
      assert (pad + s)[1..] == pad[1..] + s;
      PadStart(s, pad[1..]);
    } else {
      assert pad + s == s;
    }
  }

  lemma {:induction false} PadEnd(s: string, pad: string)
    requires forall k :: 0 <= k < |pad| ==> IsWhitespace(pad[k])
    ensures TrimEnd(s + pad) == TrimEnd(s)
  {
    if pad != [] {
      assert (s + pad)[|s + pad| - 1] == pad[|pad| - 1];
      assert (s + pad)[..|s + pad| - 1] == s + pad[..|pad| - 1];
      PadEnd(s, pad[..|pad| - 1]);
    } else {
      assert s + pad == s;
    }
  }

  /** Trimming the front of s + pad trims the front of s and keeps pad. */
  lemma {:induction false} TrimStartAppend(s: string, pad: string)
    requires forall k :: 0 <= k < |pad| ==> IsWhitespace(pad[k])
    ensures TrimEnd(TrimStart(s + pad)) == TrimEnd(TrimStart(s))
  {
    if s != [] && IsWhitespace(s[0]) {
      assert (s + pad)[1..] == s[1..] + pad;
      TrimStartAppend(s[1..], pad);
    } else if s == [] {
      PadStart([], pad);
      assert pad == pad + [];
      PadEnd([], pad);
      assert [] + pad == pad;
    } else {
      assert TrimStart(s + pad) == s + pad;
      PadEnd(s, pad);
    }
  }

  /** addWord once the word is processed to p: p joins the words unless it is empty. */
  function Insert(ws: set<string>, p: string): set<string>
  {
    if |p| != 0 then ws + {p} else ws
  }

  /** The stored words after addWord(w). */
  function Added(ws: set<string>, w: string): set<string>
  {
    Insert(ws, ProcessWord(w))
  }

  /** After addWord(w), a word is stored exactly when it was stored before or is w's processed form. */
  lemma AddedMembership(ws: set<string>, w: string, v: string)
    ensures v in Added(ws, w) <==> v in ws || (v == ProcessWord(w) && v != "")
  {
  }

  /** addWord grows the list by one exactly when w's processed form is non-empty and new. */
  lemma AddedSize(ws: set<string>, w: string)
    ensures |Added(ws, w)| == |ws| + (if ProcessWord(w) != "" && ProcessWord(w) !in ws then 1 else 0)
  {
    var p := ProcessWord(w);
    if p != "" && p !in ws {
      assert Added(ws, w) == ws + {p};
      assert |ws + {p}| == |ws| + 1;
    } else {
      assert Added(ws, w) == ws;
    }
  }

  /** Adding the same word twice is adding it once. */
  lemma AddedIdempotent(ws: set<string>, w: string)
    ensures Added(Added(ws, w), w) == Added(ws, w)
  {
  }

  /**
   * In a set of normal words, w's processed form is present exactly when
   * some stored word has the same processed form as w.
   */
  lemma FoundIffSameForm(ws: set<string>, w: string)
    requires AllNormal(ws)
    ensures ProcessWord(w) in ws <==> exists v :: v in ws && ProcessWord(v) == ProcessWord(w)
  {
    if v :| v in ws && ProcessWord(v) == ProcessWord(w) {
      NormalIffFixedPoint(v);
    }
  }

  /** Inserting a word in normal form keeps every stored word non-empty and normal. */
  lemma InsertKeepsNormal(ws: set<string>, p: string)
    requires IsNormal(p)
    ensures AllNormal(ws) ==> AllNormal(Insert(ws, p))
  {
  }

  /** Every stored word is non-empty and in normal form. */
  ghost predicate AllNormal(ws: set<string>) {
    forall w :: w in ws ==> w != "" && IsNormal(w)
  }

  /**
   * The words left by one addWord per line, in order, when words are
   * processed by norm.  Keeping the processing a parameter keeps the proof
   * about the fold apart from the string functions.
   */
  function FoldLines(norm: string -> string, lines: seq<string>): set<string>
  {
    if lines == [] then {} else Insert(FoldLines(norm, lines[..|lines| - 1]), norm(lines[|lines| - 1]))
  }

  lemma {:induction false} FoldLinesIsImage(norm: string -> string, lines: seq<string>, v: string)
    ensures v in FoldLines(norm, lines) <==> v != "" && exists l :: l in lines && norm(l) == v
  {
    if lines != [] {
      var init, last := lines[..|lines| - 1], lines[|lines| - 1];
      FoldLinesIsImage(norm, init, v);
      assert lines == init + [last];
      if v != "" && exists l :: l in lines && norm(l) == v {
        var l :| l in lines && norm(l) == v;
        if l != last {
          assert l in init;
        }
      }
    }
  }

  /** The words loaded from lines, one addWord per line in order. */
  function Loaded(lines: seq<string>): set<string>
  {
    FoldLines(ProcessWord, lines)
  }

  /** The loaded words are the non-empty processed lines, whatever their order. */
  lemma LoadedIsImage(lines: seq<string>, v: string)
    ensures v in Loaded(lines) <==> v != "" && exists l :: l in lines && ProcessWord(l) == v
  {
    FoldLinesIsImage(ProcessWord, lines, v);
  }

  /** Every loaded word is non-empty and in normal form. */
  lemma {:induction false} LoadedAllNormal(lines: seq<string>)
    ensures AllNormal(Loaded(lines))
  {
    if lines != [] {
      LoadedAllNormal(lines[..|lines| - 1]);
      ProcessWordIsNormal(lines[|lines| - 1]);
    }
  }

  /**
   * In a set of normal words, removing w when its processed form is present
   * (the source's containsWord test before remove) is removing w.
   */
  lemma RemoveIfFound(ws: set<string>, w: string)
    requires AllNormal(ws)
    ensures (if ProcessWord(w) in ws then ws - {w} else ws) == ws - {w}
  {
    if w in ws {
      NormalIffFixedPoint(w);
    }
  }

  class WordList {
    /** The stored words, each in normal form. */
    var words: set<string>

    ghost predicate Valid()
      reads this
    {
      AllNormal(words)
    }

    /** An empty word list. */
    constructor ()
      ensures words == {} && Valid()
    {
      words := {};
    }

    /** The file constructor once the file is read: addWord on every line in order. */
    constructor FromLines(lines: seq<string>)
      ensures words == Loaded(lines) && Valid()
    {
      words := {};
      new;
      for k := 0 to |lines|
        invariant words == Loaded(lines[..k]) && Valid()
      {
        assert lines[..k + 1][..k] == lines[..k];
        AddWord(lines[k]);
      }
      assert lines[..|lines|] == lines;
    }

    /**
     * The file constructor: file holds the lines of the file, or the error
     * opening or reading it raised, which is passed on.
     */
    static method FromFile(file: Result<seq<string>>) returns (r: Result<WordList>)
      ensures file.Err? ==> r == Err(file.error)
      ensures file.Ok? ==> r.Ok? && fresh(r.value) && r.value.words == Loaded(file.value) && r.value.Valid()
    {
      if file.Err? {
        return Err(file.error);
      }
      var list := new WordList.FromLines(file.value);
      return Ok(list);
    }

    /** size: the number of distinct stored words. */
    function Size(): (n: nat)
      reads this
      ensures n == |words|
    {
      |words|
    }

    /** addWord: stores w's processed form unless that is empty. */
    method AddWord(w: string)
      modifies this
      ensures words == Added(old(words), w)
      ensures old(Valid()) ==> Valid()
    {
      var p := ProcessWord(w);
      ProcessWordIsNormal(w);
      InsertKeepsNormal(words, p);
      if |p| != 0 {
        words := words + {p};
      }
    }

    /**
     * containsWord: whether w's processed form is stored.  Every stored word
     * is found, and a query that is blank is never found.
     */
    function ContainsWord(w: string): (r: bool)
      reads this
      requires Valid()
      ensures w in words ==> r
      ensures ProcessWord(w) == "" ==> !r
    {
      NormalIffFixedPoint(w);
      ProcessWord(w) in words
    }

    /** addWordList: every word of other is added. */
    method AddWordList(other: WordList)
      requires Valid() && other.Valid()
      modifies this
      ensures words == old(words) + old(other.words)
      ensures Valid()
    {
      words := words + other.words;
    }

    /**
     * subtract: every stored word that other holds is removed.  other must
     * be another list: iterating over this list's own words while removing
     * them is the source's ConcurrentModificationException.
     */
    method Subtract(other: WordList)
      requires Valid() && other != this
      modifies this
      ensures words == old(words) - other.words
      ensures other.words == old(other.words)
      ensures Valid()
    {
      var rest := other.words;
      while rest != {}
        invariant rest <= other.words
        invariant words == old(words) - (other.words - rest) && Valid()
        decreases |rest|
      {
        var w :| w in rest;
        RemoveIfFound(words, w);
        if ContainsWord(w) {
          words := words - {w};
        }
        rest := rest - {w};
      }
    }
  }
}
