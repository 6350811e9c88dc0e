/** Bag of words over the chained hash table (p2.cpp).

    Characters are classified as in the "C" locale: `isalnum`, `tolower` and
    the white space `operator>>` skips are the ASCII ones.  A document is
    split at white space; each piece loses its non-alphanumeric characters,
    is dropped if nothing is left, and is lower-cased otherwise.  The bag of
    words maps every word to the indices of the documents it occurs in. */
module BagOfWords {
  import opened ChainHashing

  // ---------------------------------------------------------------------
  // Characters

  /** `isspace` in the "C" locale: blank, \t, \n, \v, \f and \r. */
  predicate IsSpace(c: char)
  {
    c == ' ' || c == '\t' || c == '\n' || c == '\U{000B}' || c == '\U{000C}' || c == '\r'
  }

  predicate IsUpper(c: char)
  {
    'A' <= c <= 'Z'
  }

  /** `isalnum` in the "C" locale. */
  predicate IsAlnum(c: char)
  {
    '0' <= c <= '9' || 'a' <= c <= 'z' || IsUpper(c)
  }

  /** `tolower` in the "C" locale: upper-case ASCII letters map to their
      lower-case letters, every other character to itself. */
  function ToLower(c: char): (d: char)
    ensures IsUpper(c) ==> 'a' <= d <= 'z' && d as int == c as int + 32
    ensures !IsUpper(c) ==> d == c
  {
    if IsUpper(c) then (c as int + 32) as char else c
  }

  // ---------------------------------------------------------------------
  // toLowerCase and the filter of `tokenize`

  /** `toLowerCase` (p2.cpp:11-14): the same string with `tolower` applied
      to every character. */
  function ToLowerCase(s: string): (r: string)
    ensures |r| == |s|
    ensures forall i :: 0 <= i < |s| ==> r[i] == ToLower(s[i])
  {
    if s == [] then [] else [ToLower(s[0])] + ToLowerCase(s[1..])
  }

  /** The result of `toLowerCase` has no upper-case letter, keeps exactly
      the alphanumeric positions of its input, and is left alone by a
      second application. */
  lemma LowerCaseProperties(s: string)
    ensures forall i :: 0 <= i < |s| ==> !IsUpper(ToLowerCase(s)[i])
    ensures forall i :: 0 <= i < |s| ==> (IsAlnum(ToLowerCase(s)[i]) <==> IsAlnum(s[i]))
    ensures ToLowerCase(ToLowerCase(s)) == ToLowerCase(s)
  {
  }

  /** `word.erase(remove_if(..., !isalnum), word.end())` (p2.cpp:24-25): the
      alphanumeric characters of `s`, in their order. */
  function KeepAlnum(s: string): string
  {
    if s == [] then [] else KeepAlnum(s[..|s| - 1]) + (if IsAlnum(s[|s| - 1]) then [s[|s| - 1]] else [])
  }

  /** The filter leaves only alphanumeric characters, and it changes a
      string exactly when the string has a character that is not. */
  lemma {:induction false} KeepAlnumFilters(s: string)
    ensures |KeepAlnum(s)| <= |s|
    ensures forall i :: 0 <= i < |KeepAlnum(s)| ==> IsAlnum(KeepAlnum(s)[i])
    ensures KeepAlnum(s) == s <==> forall i :: 0 <= i < |s| ==> IsAlnum(s[i])
  {
    if s != [] {
      KeepAlnumFilters(s[..|s| - 1]);
    }
  }

  /** The filter works character by character: on a concatenation it is the
      concatenation of the filtered parts. */
  lemma {:induction false} KeepAlnumAppend(s: string, t: string)
    ensures KeepAlnum(s + t) == KeepAlnum(s) + KeepAlnum(t)
    decreases |t|
  {
    if t == [] {
      assert s + t == s;
    } else {
      var n := |t| - 1;
      assert (s + t)[..|s + t| - 1] == s + t[..n];
      KeepAlnumAppend(s, t[..n]);
    }
  }

  /** `remove_if` followed by `erase`, in place: the alphanumeric characters
      move to the front in their order, and the new length is returned. */
  method EraseNonAlnum(word: array<char>) returns (len: int)
    modifies word
    ensures 0 <= len <= word.Length && word[..len] == KeepAlnum(old(word[..]))
  {
    ghost var s := word[..];
    var w, r := 0, 0;
    while r < word.Length
      invariant 0 <= w <= r <= word.Length
      invariant word[..w] == KeepAlnum(s[..r])
      invariant forall k :: r <= k < word.Length ==> word[k] == s[k]
    {
      assert s[..r + 1][..r] == s[..r];
      if IsAlnum(word[r]) {
        ghost var before := word[..];
        word[w] := word[r];
        assert word[..w + 1] == before[..w] + [s[r]];
        w := w + 1;
      }
      r := r + 1;
    }
    assert s[..r] == s;
    return w;
  }

  // ---------------------------------------------------------------------
  // tokenize

  /** A word `tokenize` can return: non-empty, alphanumeric, lower-case. */
  predicate IsWord(w: string)
  {
    w != [] && forall i :: 0 <= i < |w| ==> IsAlnum(w[i]) && !IsUpper(w[i])
  }

  /** The end of the piece `ss >> word` reads from position `i`: the first
      white-space position from `i` on, or the end of the text. */
  function PieceEnd(s: string, i: int): (j: int)
    requires 0 <= i <= |s|
    ensures i <= j <= |s|
    ensures j < |s| ==> IsSpace(s[j])
    ensures forall k :: i <= k < j ==> !IsSpace(s[k])
    decreases |s| - i
  {
    if i == |s| || IsSpace(s[i]) then i else PieceEnd(s, i + 1)
  }

  /** What one piece contributes: its alphanumeric characters, lower-cased,
      unless none are left. */
  function Emit(piece: string): seq<string>
  {
    var w := KeepAlnum(piece);
    if w == [] then [] else [ToLowerCase(w)]
  }

  /** The pieces `ss >> word` reads from position `i` on: the maximal runs
      of characters other than white space, left to right. */
  function PiecesFrom(s: string, i: int): seq<string>
    requires 0 <= i <= |s|
    decreases |s| - i
  {
    if i == |s| then []
    else if IsSpace(s[i]) then PiecesFrom(s, i + 1)
    else var j := PieceEnd(s, i); [s[i..j]] + PiecesFrom(s, j)
  }

  function Pieces(text: string): seq<string>
  {
    PiecesFrom(text, 0)
  }

  /** The words a sequence of pieces yields, in order. */
  function EmitAll(pieces: seq<string>): seq<string>
  {
    if pieces == [] then [] else Emit(pieces[0]) + EmitAll(pieces[1..])
  }

  /** `tokenize(text)` as a value: the words of the pieces of `text`. */
  function Tokens(text: string): seq<string>
  {
    EmitAll(Pieces(text))
  }

  /** A piece yields at most one word, and that word is non-empty,
      alphanumeric and lower-case. */
  lemma EmitIsWord(piece: string)
    ensures |Emit(piece)| <= 1 && forall k :: 0 <= k < |Emit(piece)| ==> IsWord(Emit(piece)[k])
  {
    KeepAlnumFilters(piece);
  }

  /** Cleaning the pieces one after the other works piece by piece. */
  lemma {:induction false} EmitAllAppend(x: seq<string>, y: seq<string>)
    ensures EmitAll(x + y) == EmitAll(x) + EmitAll(y)
  {
    if x == [] {
      assert x + y == y;
    } else {
      assert (x + y)[1..] == x[1..] + y;
      EmitAllAppend(x[1..], y);
    }
  }

  lemma {:induction false} EmitAllAreWords(pieces: seq<string>)
    ensures |EmitAll(pieces)| <= |pieces|
    ensures forall k :: 0 <= k < |EmitAll(pieces)| ==> IsWord(EmitAll(pieces)[k])
  {
    if pieces != [] {
      EmitIsWord(pieces[0]);
      EmitAllAreWords(pieces[1..]);
    }
  }

  /** Every word `tokenize` returns is non-empty, alphanumeric and
      lower-case, and there are no more words than pieces. */
  lemma TokensAreWords(text: string)
    ensures |Tokens(text)| <= |Pieces(text)|
    ensures forall k :: 0 <= k < |Tokens(text)| ==> IsWord(Tokens(text)[k])
  {
    EmitAllAreWords(Pieces(text));
  }

  /** Every piece is non-empty and holds no white space. */
  lemma {:induction false} PiecesAreRuns(s: string, i: int)
    requires 0 <= i <= |s|
    ensures forall k :: 0 <= k < |PiecesFrom(s, i)| ==>
              (PiecesFrom(s, i)[k] != [] && forall c :: c in PiecesFrom(s, i)[k] ==> !IsSpace(c))
    decreases |s| - i
  {
    if i < |s| {
      if IsSpace(s[i]) {
        PiecesAreRuns(s, i + 1);
      } else {
        PiecesAreRuns(s, PieceEnd(s, i));
      }
    }
  }

  /** The words from a position that starts a piece: the word of that
      piece, if any, then the words after it. */
  lemma EmitAllFrom(text: string, i: int)
    requires 0 <= i < |text| && !IsSpace(text[i])
    ensures EmitAll(PiecesFrom(text, i)) ==
            Emit(text[i..PieceEnd(text, i)]) + EmitAll(PiecesFrom(text, PieceEnd(text, i)))
  {
    var j := PieceEnd(text, i);
    assert PiecesFrom(text, i) == [text[i..j]] + PiecesFrom(text, j);
    EmitAllAppend([text[i..j]], PiecesFrom(text, j));
    assert EmitAll([text[i..j]]) == Emit(text[i..j]) + EmitAll([]);
  }

  /** One iteration of the loop of `tokenize` (p2.cpp:21-30): `ss >> word`
      reads the piece starting at `i`, which ends at `j`; the piece is
      cleaned in place and lower-cased, and `found` says whether anything
      was left. */
  method ReadPiece(text: string, i: int) returns (j: int, found: bool, word: string)
    requires 0 <= i < |text| && !IsSpace(text[i])
    ensures j == PieceEnd(text, i)
    ensures (if found then [word] else []) == Emit(text[i..j])
  {
    j := i;
    while j < |text| && !IsSpace(text[j])
      invariant i <= j <= |text| && PieceEnd(text, j) == PieceEnd(text, i)
    {
      j := j + 1;
    }
    var piece := new char[j - i](k requires 0 <= k < j - i => text[i + k]);
    assert piece[..] == text[i..j];
    var len := EraseNonAlnum(piece);
    found := len != 0;
    word := ToLowerCase(piece[..len]);
  }

  /** `tokenize` (p2.cpp:17-32): read white-space separated pieces left to
      right, clean each one in place and keep the non-empty ones. */
  method Tokenize(text: string) returns (words: seq<string>)
    ensures words == Tokens(text)
  {
    words := [];
    var i := 0;
    while i < |text|
      invariant 0 <= i <= |text|
      invariant words + EmitAll(PiecesFrom(text, i)) == Tokens(text)
    {
      if IsSpace(text[i]) {
        // `operator>>` skips leading white space
        i := i + 1;
      } else {
        var j, found, word := ReadPiece(text, i);
        EmitAllFrom(text, i);
        ghost var rest := EmitAll(PiecesFrom(text, j));
        if found {
          assert words + ([word] + rest) == (words + [word]) + rest;
          words := words + [word];
        } else {
          assert [] + rest == rest;
        }
        i := j;
      }
    }
  }

  /** Where a piece that starts before a white-space character ends does not
      depend on what follows that character. */
  lemma {:induction false} PieceEndBeforeSpace(a: string, t: string, i: int)
    requires 0 <= i <= |a| && t != [] && IsSpace(t[0])
    ensures PieceEnd(a + t, i) == PieceEnd(a, i)
    decreases |a| - i
  {
    if i < |a| && !IsSpace(a[i]) {
      PieceEndBeforeSpace(a, t, i + 1);
    }
  }

  lemma {:induction false} PieceEndShift(p: string, s: string, i: int)
    requires 0 <= i <= |s|
    ensures PieceEnd(p + s, |p| + i) == |p| + PieceEnd(s, i)
    decreases |s| - i
  {
    if i < |s| && !IsSpace(s[i]) {
      PieceEndShift(p, s, i + 1);
    }
  }

  /** The pieces of a suffix do not depend on what precedes it. */
  lemma {:induction false} PiecesShift(p: string, s: string, i: int)
    requires 0 <= i <= |s|
    ensures PiecesFrom(p + s, |p| + i) == PiecesFrom(s, i)
    decreases |s| - i
  {
    var t, n := p + s, |p| + i;
    if i == |s| {
      assert n == |t|;
    } else {
      assert t[n] == s[i];
      if IsSpace(s[i]) {
        PiecesShift(p, s, i + 1);
        assert PiecesFrom(t, n) == PiecesFrom(t, n + 1);
      } else {
        var j := PieceEnd(s, i);
        PieceEndShift(p, s, i);
        assert t[n..|p| + j] == s[i..j];
        PiecesShift(p, s, j);
        assert PiecesFrom(t, n) == [t[n..|p| + j]] + PiecesFrom(t, |p| + j);
      }
    }
  }

  /** The pieces read from `a + t`, where `t` starts with white space, are
      the pieces of `a` followed by those of `t`. */
  lemma {:induction false} PiecesBeforeSpace(a: string, t: string, i: int)
    requires 0 <= i <= |a| && t != [] && IsSpace(t[0])
    ensures PiecesFrom(a + t, i) == PiecesFrom(a, i) + PiecesFrom(a + t, |a|)
    decreases |a| - i
  {
    if i < |a| {
      if IsSpace(a[i]) {
        PiecesBeforeSpace(a, t, i + 1);
      } else {
        var j := PieceEnd(a, i);
        PieceEndBeforeSpace(a, t, i);
        assert (a + t)[i..j] == a[i..j];
        PiecesBeforeSpace(a, t, j);
      }
    }
  }

  /** Two texts joined by a white-space character have the pieces of the
      first followed by the pieces of the second. */
  lemma PiecesOfJoin(a: string, c: char, b: string)
    requires IsSpace(c)
    ensures Pieces(a + [c] + b) == Pieces(a) + Pieces(b)
  {
    assert a + [c] + b == a + ([c] + b);
    PiecesBeforeSpace(a, [c] + b, 0);
    assert a + [c] + b == (a + [c]) + b;
    PiecesShift(a + [c], b, 0);
  }

  /** `tokenize` keeps the left-to-right order of the words: the words of
      two texts joined by a white-space character are the words of the
      first followed by the words of the second. */
  lemma TokensOfJoin(a: string, c: char, b: string)
    requires IsSpace(c)
    ensures Tokens(a + [c] + b) == Tokens(a) + Tokens(b)
  {
    PiecesOfJoin(a, c, b);
    EmitAllAppend(Pieces(a), Pieces(b));
  }

  /** A text without white space is one piece: it yields at most one word,
      its alphanumeric characters lower-cased. */
  lemma {:induction false} TokensOfPiece(w: string)
    requires w != [] && forall i :: 0 <= i < |w| ==> !IsSpace(w[i])
    ensures Pieces(w) == [w] && Tokens(w) == Emit(w)
  {
    PieceEndOfPiece(w, 0);
    assert w[0..|w|] == w;
    assert PiecesFrom(w, |w|) == [];
    assert EmitAll([w]) == Emit(w) + EmitAll([]);
  }

  lemma {:induction false} PieceEndOfPiece(w: string, i: int)
    requires 0 <= i <= |w| && forall k :: i <= k < |w| ==> !IsSpace(w[k])
    ensures PieceEnd(w, i) == |w|
    decreases |w| - i
  {
    if i < |w| {
      PieceEndOfPiece(w, i + 1);
    }
  }

  // ---------------------------------------------------------------------
  // bagOfWords

  /** The words of every document, in document order: what `tokenize`
      returns for each of them. */
  ghost function WordLists(documents: seq<string>): (docs: seq<seq<string>>)
    ensures |docs| == |documents| && forall d :: 0 <= d < |docs| ==> docs[d] == Tokens(documents[d])
  {
    seq(|documents|, d requires 0 <= d < |documents| => Tokens(documents[d]))
  }

  /** The words occurring in the first `n` documents. */
  ghost function Vocabulary(docs: seq<seq<string>>, n: int): set<string>
    requires 0 <= n <= |docs|
  {
    if n == 0 then {} else Vocabulary(docs, n - 1) + Elements(docs[n - 1])
  }

  ghost function Elements(words: seq<string>): set<string>
  {
    set w | w in words
  }

  /** The indices, in increasing order, of the documents among the first
      `n` that contain `w`. */
  ghost function Containing(docs: seq<seq<string>>, w: string, n: int): seq<int>
    requires 0 <= n <= |docs|
  {
    if n == 0 then [] else Containing(docs, w, n - 1) + (if w in docs[n - 1] then [n - 1] else [])
  }

  /** The inverted index of the first `n` documents. */
  ghost function Index(docs: seq<seq<string>>, n: int): map<string, seq<int>>
    requires 0 <= n <= |docs|
  {
    map w | w in Vocabulary(docs, n) :: Containing(docs, w, n)
  }

  /** Before the first document the index is empty. */
  lemma IndexOfNone(docs: seq<seq<string>>)
    ensures Index(docs, 0) == map[]
  {
    assert Index(docs, 0).Keys == {};
  }

  /** The list of `w` holds exactly the documents containing it. */
  lemma {:induction false} ContainingMembers(docs: seq<seq<string>>, w: string, n: int)
    requires 0 <= n <= |docs|
    ensures forall e :: e in Containing(docs, w, n) <==> 0 <= e < n && w in docs[e]
  {
    if n > 0 {
      ContainingMembers(docs, w, n - 1);
      assert Containing(docs, w, n) == Containing(docs, w, n - 1) + (if w in docs[n - 1] then [n - 1] else []);
    }
  }

  /** The list of `w` is strictly increasing, so it has no duplicates. */
  lemma {:induction false} ContainingIncreasing(docs: seq<seq<string>>, w: string, n: int)
    requires 0 <= n <= |docs|
    ensures forall p, q :: 0 <= p < q < |Containing(docs, w, n)| ==>
      Containing(docs, w, n)[p] < Containing(docs, w, n)[q]
  {
    if n > 0 {
      ContainingIncreasing(docs, w, n - 1);
      ContainingMembers(docs, w, n - 1);
      var c := Containing(docs, w, n - 1);
      assert forall p :: 0 <= p < |c| ==> c[p] in c;
    }
  }

  /** The list of `w` is empty exactly when `w` is not a word of any of the
      documents. */
  lemma {:induction false} ContainingEmpty(docs: seq<seq<string>>, w: string, n: int)
    requires 0 <= n <= |docs|
    ensures Containing(docs, w, n) == [] <==> w !in Vocabulary(docs, n)
  {
    if n > 0 {
      ContainingEmpty(docs, w, n - 1);
    }
  }

  /** What `bagOfWords` promises: the keys are exactly the words of the
      documents, and each word's list holds exactly the indices of the
      documents it occurs in, strictly increasing, so without duplicates. */
  lemma IndexCharacterized(docs: seq<seq<string>>)
    ensures forall w :: w in Index(docs, |docs|) <==> exists e :: 0 <= e < |docs| && w in docs[e]
    ensures forall w, e :: w in Index(docs, |docs|) ==>
      (e in Index(docs, |docs|)[w] <==> 0 <= e < |docs| && w in docs[e])
    ensures forall w, p, q :: w in Index(docs, |docs|) && 0 <= p < q < |Index(docs, |docs|)[w]| ==>
      Index(docs, |docs|)[w][p] < Index(docs, |docs|)[w][q]
  {
    forall w
      ensures w in Index(docs, |docs|) <==> exists e :: 0 <= e < |docs| && w in docs[e]
      ensures w in Index(docs, |docs|) ==> forall e ::
        (e in Index(docs, |docs|)[w] <==> 0 <= e < |docs| && w in docs[e])
      ensures w in Index(docs, |docs|) ==> forall p, q :: 0 <= p < q < |Index(docs, |docs|)[w]| ==>
        Index(docs, |docs|)[w][p] < Index(docs, |docs|)[w][q]
    {
      ContainingMembers(docs, w, |docs|);
      ContainingIncreasing(docs, w, |docs|);
      ContainingEmpty(docs, w, |docs|);
      var c := Containing(docs, w, |docs|);
      if exists e :: 0 <= e < |docs| && w in docs[e] {
        var e :| 0 <= e < |docs| && w in docs[e];
        assert e in c;
      }
      if c != [] {
        assert c[0] in c;
      }
    }
  }

  /** The table while document `d` is processed: the index of the documents
      before `d`, plus `d` in the lists of its first `k` words. */
  ghost function Partial(docs: seq<seq<string>>, d: int, k: int): map<string, seq<int>>
    requires 0 <= d < |docs| && 0 <= k <= |docs[d]|
  {
    map w | w in Vocabulary(docs, d) + Elements(docs[d][..k]) ::
      Containing(docs, w, d) + (if w in docs[d][..k] then [d] else [])
  }

  /** One word of document `d`: a word met before in the same document
      leaves the table as it is; otherwise `d` is appended to its list, which
      is `[d]` for a word not seen in earlier documents. */
  lemma PartialStep(docs: seq<seq<string>>, d: int, k: int)
    requires 0 <= d < |docs| && 0 <= k < |docs[d]|
    ensures var words := docs[d];
      Partial(docs, d, k + 1) ==
      if words[k] in words[..k] then Partial(docs, d, k)
      else Partial(docs, d, k)[words[k] := Containing(docs, words[k], d) + [d]]
  {
    var words := docs[d];
    var x := words[k];
    var before, after := words[..k], words[..k + 1];
    assert after == before + [x];
    assert Elements(after) == Elements(before) + {x};
    var m, m' := Partial(docs, d, k), Partial(docs, d, k + 1);
    if x in before {
      assert m'.Keys == m.Keys;
      forall w | w in m
        ensures m'[w] == m[w]
      {
        assert (w in after) == (w in before);
      }
    } else {
      var m'' := m[x := Containing(docs, x, d) + [d]];
      assert m'.Keys == m''.Keys;
      forall w | w in m'
        ensures m'[w] == m''[w]
      {
        assert w != x ==> (w in after) == (w in before);
      }
    }
  }

  /** Before the first word and after the last one of document `d`. */
  lemma PartialEnds(docs: seq<seq<string>>, d: int)
    requires 0 <= d < |docs|
    ensures Partial(docs, d, 0) == Index(docs, d)
    ensures Partial(docs, d, |docs[d]|) == Index(docs, d + 1)
  {
    var words := docs[d];
    assert words[..0] == [];
    assert Elements([]) == {};
    var m, i := Partial(docs, d, 0), Index(docs, d);
    assert m.Keys == i.Keys;
    assert forall w :: w in m ==> m[w] == i[w];
    assert words[..|words|] == words;
    var m', i' := Partial(docs, d, |words|), Index(docs, d + 1);
    assert m'.Keys == i'.Keys;
    assert forall w :: w in m' ==> m'[w] == i'[w];
  }

  /** The duplicate check of `bagOfWords` (p2.cpp:50-56): scan the list
      until `docIndex` is met. */
  method Listed(list: seq<int>, docIndex: int) returns (seen: bool)
    ensures seen <==> docIndex in list
  {
    seen := false;
    var p := 0;
    while p < |list|
      invariant 0 <= p <= |list|
      invariant forall q :: 0 <= q < p ==> list[q] != docIndex
    {
      if list[p] == docIndex {
        seen := true;
        break;
      }
      p := p + 1;
    }
  }

  /** The body of the inner loop of `bagOfWords` (p2.cpp:44-68) for the
      word at position `k` of document `docIndex`: a word the table lacks
      gets the list `[docIndex]`; a word it holds gets `docIndex` appended
      unless the list has it already. */
  method AddWord(result: ChainHash<string, seq<int>>, ghost docs: seq<seq<string>>, docIndex: int,
                 words: seq<string>, k: int)
    requires 0 <= docIndex < |docs| && words == docs[docIndex] && 0 <= k < |words|
    requires result.Valid() && result.contents == Partial(docs, docIndex, k)
    modifies result.Repr
    ensures result.Valid() && fresh(result.Repr - old(result.Repr))
    ensures result.contents == Partial(docs, docIndex, k + 1)
    ensures result.capacity >= old(result.capacity)
  {
    var word := words[k];
    ghost var c := Containing(docs, word, docIndex);
    ghost var again := word in words[..k];
    ghost var next := Partial(docs, docIndex, k + 1);
    PartialStep(docs, docIndex, k);
    assert next == if again then result.contents else result.contents[word := c + [docIndex]];
    ContainingMembers(docs, word, docIndex);
    ContainingEmpty(docs, word, docIndex);
    assert word in result.contents ==> result.contents[word] == c + (if again then [docIndex] else []);
    assert word !in result.contents ==> !again && c == [];
    var present := result.Contains(word);
    if present {
      var stored := result.Get(word);
      var list := stored.value;
      var seen := Listed(list, docIndex);
      assert seen == again;
      if !seen {
        assert list == c;
        result.Set(word, list + [docIndex]);
      }
    } else {
      result.Set(word, [docIndex]);
      assert [docIndex] == c + [docIndex];
    }
  }

  /** The body of the outer loop of `bagOfWords` (p2.cpp:40-69): the words
      of document `docIndex`, in order, each through `AddWord`. */
  method AddDocument(result: ChainHash<string, seq<int>>, documents: seq<string>, docIndex: int)
    requires 0 <= docIndex < |documents|
    requires result.Valid() && result.contents == Index(WordLists(documents), docIndex)
    modifies result.Repr
    ensures result.Valid() && fresh(result.Repr - old(result.Repr))
    ensures result.contents == Index(WordLists(documents), docIndex + 1)
    ensures result.capacity >= old(result.capacity)
  {
    ghost var docs := WordLists(documents);
    var words := Tokenize(documents[docIndex]);
    PartialEnds(docs, docIndex);
    var k := 0;
    while k < |words|
      invariant 0 <= k <= |words|
      invariant result.Valid() && fresh(result.Repr - old(result.Repr))
      invariant result.contents == Partial(docs, docIndex, k)
      invariant result.capacity >= old(result.capacity)
    {
      AddWord(result, docs, docIndex, words, k);
      k := k + 1;
    }
  }

  /** `bagOfWords` (p2.cpp:35-73): a table of capacity 13 that maps every
      word of the documents to the list of the documents it occurs in.  The
      hash of a string is a parameter. */
  method BagOfWords(documents: seq<string>, hash: string -> nat) returns (result: ChainHash<string, seq<int>>)
    ensures result.Valid() && fresh(result.Repr)
    ensures result.contents == Index(WordLists(documents), |documents|)
    ensures result.hash == hash && result.capacity >= 13
  {
    result := new ChainHash(13, hash);
    IndexOfNone(WordLists(documents));
    var docIndex := 0;
    while docIndex < |documents|
      invariant 0 <= docIndex <= |documents|
      invariant result.Valid() && fresh(result.Repr)
      invariant result.contents == Index(WordLists(documents), docIndex)
      invariant result.hash == hash && result.capacity >= 13
    {
      AddDocument(result, documents, docIndex);
      docIndex := docIndex + 1;
    }
  }
}
