/** `NameFormatter`: re-casing identifiers.

    Every style first splits its input into lower-case words: a space goes
    between a lower-case letter or digit and a following capital, `-` and
    `_` become spaces, everything is lower-cased, and the text is cut at
    runs of white space with empty pieces dropped.  The styles then glue
    the words back together. */
module NameFormatter {
  import opened Common

  datatype CaseStyle = Camel | Pascal | Snake | Kebab

  /** The `\s` class of JavaScript regular expressions: white space and
      line terminators. */
  predicate IsSpace(c: char)
  {
    || c == ' ' || c == '\t' || c == '\n' || c == '\U{B}' || c == '\U{C}' || c == '\r'
    || c == '\U{A0}' || c == '\U{1680}' || ('\U{2000}' <= c <= '\U{200A}')
    || c == '\U{2028}' || c == '\U{2029}' || c == '\U{202F}' || c == '\U{205F}'
    || c == '\U{3000}' || c == '\U{FEFF}'
  }

  /** A word as the splitter produces it: non-empty, lower-case, and free of
      white space and of the separators `-` and `_`. */
  predicate IsWord(w: string)
  {
    w != [] && forall i :: 0 <= i < |w| ==> !IsSpace(w[i]) && !IsUpper(w[i]) && w[i] != '-' && w[i] != '_'
  }

  predicate AllWords(ws: seq<string>)
  {
    forall i :: 0 <= i < |ws| ==> IsWord(ws[i])
  }

  // ---------------------------------------------------------------------
  // Splitting
  // ---------------------------------------------------------------------

  /** A lower-case letter or digit followed by a capital marks a word
      boundary. */
  predicate BoundaryAt(s: string, i: int)
    requires 0 <= i && i + 1 < |s|
  {
    (IsLower(s[i]) || IsDigit(s[i])) && IsUpper(s[i + 1])
  }

  /** `replace(/([a-z0-9])([A-Z])/g, '$1 $2')`.  The second character of a
      match is a capital, which cannot start the next match, so the
      left-to-right scan inserts a space at every boundary. */
  function InsertBoundaries(s: string): (r: string)
    ensures |r| >= |s|
    ensures s != [] ==> r != [] && r[0] == s[0]
  {
    if |s| < 2 then s
    else if BoundaryAt(s, 0) then [s[0], ' '] + InsertBoundaries(s[1..])
    else [s[0]] + InsertBoundaries(s[1..])
  }

  /** Only spaces are added: a property of every input character and of
      the space holds of every output character. */
  lemma {:induction false} InsertBoundariesKeeps(s: string, p: char -> bool)
    requires p(' ') && forall i :: 0 <= i < |s| ==> p(s[i])
    ensures forall i :: 0 <= i < |InsertBoundaries(s)| ==> p(InsertBoundaries(s)[i])
  {
    if |s| >= 2 {
      InsertBoundariesKeeps(s[1..], p);
    }
  }

  /** Text in which no capital follows a letter or digit is left alone. */
  lemma {:induction false} InsertBoundariesNone(s: string)
    requires forall i :: 0 <= i && i + 1 < |s| ==> !BoundaryAt(s, i)
    ensures InsertBoundaries(s) == s
  {
    if |s| >= 2 {
      assert !BoundaryAt(s, 0);
      forall i | 0 <= i && i + 1 < |s[1..]| ensures !BoundaryAt(s[1..], i) {
        assert !BoundaryAt(s, i + 1);
      }
      InsertBoundariesNone(s[1..]);
      assert s == [s[0]] + s[1..];
    }
  }

  /** Across a joint with no boundary, the two sides are scanned apart. */
  lemma {:induction false} InsertBoundariesAppend(a: string, b: string)
    requires a != [] && b != []
    requires !((IsLower(a[|a| - 1]) || IsDigit(a[|a| - 1])) && IsUpper(b[0]))
    ensures InsertBoundaries(a + b) == InsertBoundaries(a) + InsertBoundaries(b)
  {
    if |a| == 1 {
      assert a + b == [a[0]] + b;
      InsertBoundariesCons(a[0], b);
    } else {
      var t := a[1..];
      assert a == [a[0]] + t;
      assert a + b == [a[0]] + (t + b);
      InsertBoundariesCons(a[0], t + b);
      InsertBoundariesCons(a[0], t);
      InsertBoundariesAppend(t, b);
      var x, y := InsertBoundaries(t), InsertBoundaries(b);
      var head := if (IsLower(a[0]) || IsDigit(a[0])) && IsUpper(t[0]) then [a[0], ' '] else [a[0]];
      ConcatAssoc(head, x, y);
    }
  }

  /** One step of the scan: the first character, a space when it closes a
      boundary, then the scan of the rest. */
  lemma InsertBoundariesCons(c: char, t: string)
    requires t != []
    ensures InsertBoundaries([c] + t)
            == (if (IsLower(c) || IsDigit(c)) && IsUpper(t[0]) then [c, ' '] else [c]) + InsertBoundaries(t)
  {
    var s := [c] + t;
    assert s[0] == c && s[1] == t[0];
    assert s[1..] == t;
  }

  /** Across a joint with a boundary, a space is inserted there. */
  lemma {:induction false} InsertBoundariesSplit(a: string, b: string)
    requires a != [] && b != []
    requires (IsLower(a[|a| - 1]) || IsDigit(a[|a| - 1])) && IsUpper(b[0])
    ensures InsertBoundaries(a + b) == InsertBoundaries(a) + " " + InsertBoundaries(b)
  {
    if |a| == 1 {
      assert a + b == [a[0]] + b;
      InsertBoundariesCons(a[0], b);
    } else {
      var t := a[1..];
      assert a == [a[0]] + t;
      assert a + b == [a[0]] + (t + b);
      InsertBoundariesCons(a[0], t + b);
      InsertBoundariesCons(a[0], t);
      InsertBoundariesSplit(t, b);
      var x, y := InsertBoundaries(t), InsertBoundaries(b);
      var head := if (IsLower(a[0]) || IsDigit(a[0])) && IsUpper(t[0]) then [a[0], ' '] else [a[0]];
      ConcatAssoc(head, x + " ", y);
      ConcatAssoc(head, x, " ");
    }
  }

  /** `replace(/[-_]/g, ' ')`. */
  function Unseparate(s: string): (r: string)
    ensures |r| == |s|
    ensures forall i :: 0 <= i < |s| ==> r[i] == (if s[i] == '-' || s[i] == '_' then ' ' else s[i])
  {
    if s == [] then [] else [if s[0] == '-' || s[0] == '_' then ' ' else s[0]] + Unseparate(s[1..])
  }

  /** Length of the leading run of non-space characters. */
  function WordEnd(s: string): (k: nat)
    ensures k <= |s|
    ensures forall j :: 0 <= j < k ==> !IsSpace(s[j])
    ensures k < |s| ==> IsSpace(s[k])
  {
    if s == [] || IsSpace(s[0]) then 0 else 1 + WordEnd(s[1..])
  }

  /** `split(/\s+/).filter(Boolean)`: the maximal runs of non-space
      characters, in order. */
  function Words(s: string): (ws: seq<string>)
    ensures forall i :: 0 <= i < |ws| ==> ws[i] != []
    ensures forall i, j :: 0 <= i < |ws| && 0 <= j < |ws[i]| ==> !IsSpace(ws[i][j])
    decreases |s|
  {
    if s == [] then []
    else if IsSpace(s[0]) then Words(s[1..])
    else
      var k := WordEnd(s);
      [s[..k]] + Words(s[k..])
  }

  /** Words are pieces of their input: a property of every input
      character holds of every character of every word. */
  lemma {:induction false} WordsKeep(s: string, p: char -> bool)
    requires forall i :: 0 <= i < |s| ==> p(s[i])
    ensures forall i, j :: 0 <= i < |Words(s)| && 0 <= j < |Words(s)[i]| ==> p(Words(s)[i][j])
    decreases |s|
  {
    if s != [] {
      if IsSpace(s[0]) {
        WordsKeep(s[1..], p);
      } else {
        var k := WordEnd(s);
        WordsKeep(s[k..], p);
      }
    }
  }

  lemma WordsSpace(x: string)
    ensures Words(" " + x) == Words(x)
  {
    assert (" " + x)[1..] == x;
  }

  /** Words that are space-free and non-empty come back out of the text
      that joins them with single spaces. */
  lemma {:induction false} WordsJoin(ws: seq<string>)
    requires forall i :: 0 <= i < |ws| ==> ws[i] != [] && forall j :: 0 <= j < |ws[i]| ==> !IsSpace(ws[i][j])
    ensures Words(Join(ws, " ")) == ws
  {
    if ws != [] {
      var w := ws[0];
      if |ws| == 1 {
        assert WordEnd(w) == |w| by { WordEndAll(w, []); assert w + [] == w; }
        assert w[..|w|] == w;
        assert w[|w|..] == [];
        assert Words(w) == [w] + Words([]);
      } else {
        var rest := Join(ws[1..], " ");
        var s := w + " " + rest;
        assert Join(ws, " ") == s;
        WordEndAll(w, " " + rest);
        assert s == w + (" " + rest);
        assert s[..|w|] == w;
        assert s[|w|..] == " " + rest;
        WordsSpace(rest);
        WordsJoin(ws[1..]);
      }
    }
  }

  lemma {:induction false} WordEndAll(w: string, x: string)
    requires w != [] && forall j :: 0 <= j < |w| ==> !IsSpace(w[j])
    requires x == [] || IsSpace(x[0])
    ensures WordEnd(w + x) == |w|
  {
    if |w| > 1 {
      assert (w + x)[1..] == w[1..] + x;
      WordEndAll(w[1..], x);
    } else {
      assert (w + x)[1..] == x;
    }
  }

  /** No capital and no separator. */
  predicate Plain(c: char) { !IsUpper(c) && c != '-' && c != '_' }

  /** `splitWords`. */
  function SplitWords(s: string): (ws: seq<string>)
    ensures AllWords(ws)
  {
    var t := Lower(Unseparate(InsertBoundaries(s)));
    var ws := Words(t);
    WordsKeep(t, Plain);
    ws
  }

  // ---------------------------------------------------------------------
  // Styles
  // ---------------------------------------------------------------------

  /** `capitalize`: first character upper-cased, the rest lower-cased. */
  function Capitalize(w: string): (r: string)
    ensures |r| == |w|
    ensures w != [] ==> r[0] == ToUpperChar(w[0])
    ensures forall i :: 1 <= i < |w| ==> r[i] == ToLowerChar(w[i])
  {
    if w == [] then [] else [ToUpperChar(w[0])] + Lower(w[1..])
  }

  function LowerAll(ws: seq<string>): (r: seq<string>)
    ensures |r| == |ws|
    ensures forall i :: 0 <= i < |ws| ==> r[i] == Lower(ws[i])
  {
    seq(|ws|, i requires 0 <= i < |ws| => Lower(ws[i]))
  }

  function CapitalizeAll(ws: seq<string>): (r: seq<string>)
    ensures |r| == |ws|
    ensures forall i :: 0 <= i < |ws| ==> r[i] == Capitalize(ws[i])
  {
    seq(|ws|, i requires 0 <= i < |ws| => Capitalize(ws[i]))
  }

  lemma LowerAllWords(ws: seq<string>)
    requires AllWords(ws)
    ensures LowerAll(ws) == ws
  {
    forall i | 0 <= i < |ws| ensures Lower(ws[i]) == ws[i] {
      LowerOfLowercase(ws[i]);
    }
  }

  /** `toCamelCase` reads `words[0]`, which throws when the input has no
      words; this is the condition under which it returns. */
  predicate HasWords(s: string) { SplitWords(s) != [] }

  /** Camel text starts with a non-capital, and lower-cased it is the
      input's words glued together. */
  function ToCamelCase(s: string): (r: string)
    requires HasWords(s)
    ensures r != [] && !IsUpper(r[0])
    ensures Lower(r) == Join(SplitWords(s), "")
  {
    var ws := SplitWords(s);
    CamelLowered(ws);
    Lower(ws[0]) + Join(CapitalizeAll(ws[1..]), "")
  }

  /** Pascal text lower-cased is the input's words glued together. */
  function ToPascalCase(s: string): (r: string)
    ensures Lower(r) == Join(SplitWords(s), "")
  {
    CapitalizedLowered(SplitWords(s));
    Join(CapitalizeAll(SplitWords(s)), "")
  }

  /** Snake text holds no capital, and splitting it again gives back the
      input's words; applying it twice is therefore applying it once. */
  function ToSnakeCase(s: string): (r: string)
    ensures NoUpper(r)
    ensures SplitWords(r) == SplitWords(s)
  {
    var ws := SplitWords(s);
    LowerAllWords(ws);
    JoinNoUpper(ws, "_");
    SplitJoined(ws, '_');
    Join(LowerAll(ws), "_")
  }

  /** Kebab text likewise holds no capital and keeps the input's words. */
  function ToKebabCase(s: string): (r: string)
    ensures NoUpper(r)
    ensures SplitWords(r) == SplitWords(s)
  {
    var ws := SplitWords(s);
    LowerAllWords(ws);
    JoinNoUpper(ws, "-");
    SplitJoined(ws, '-');
    Join(LowerAll(ws), "-")
  }

  /** Capitalised words lower-case back to the words. */
  lemma CapitalizedLowered(ws: seq<string>)
    requires AllWords(ws)
    ensures Lower(Join(CapitalizeAll(ws), "")) == Join(ws, "")
  {
    forall i | 0 <= i < |ws| ensures Lower(Capitalize(ws[i])) == ws[i] {
      CapitalizedScan(ws[i]);
    }
    assert LowerAll(CapitalizeAll(ws)) == ws;
    LowerJoin(CapitalizeAll(ws), "");
  }

  lemma CamelLowered(ws: seq<string>)
    requires AllWords(ws) && ws != []
    ensures var r := Lower(ws[0]) + Join(CapitalizeAll(ws[1..]), "");
            r != [] && !IsUpper(r[0]) && Lower(r) == Join(ws, "")
  {
    var rest := Join(CapitalizeAll(ws[1..]), "");
    LowerOfLowercase(ws[0]);
    CapitalizedLowered(ws[1..]);
    LowerAppend(ws[0], rest);
    JoinFront(ws[0], ws[1..]);
    assert [ws[0]] + ws[1..] == ws;
  }

  // ---------------------------------------------------------------------
  // Properties of the styles
  // ---------------------------------------------------------------------

  lemma {:induction false} JoinNoUpper(ws: seq<string>, sep: string)
    requires NoUpper(sep)
    requires forall i :: 0 <= i < |ws| ==> NoUpper(ws[i])
    ensures NoUpper(Join(ws, sep))
  {
    if |ws| > 1 {
      JoinNoUpper(ws[1..], sep);
      var j := Join(ws[1..], sep);
      assert Join(ws, sep) == ws[0] + sep + j;
      forall k | 0 <= k < |ws[0] + sep + j| ensures !IsUpper((ws[0] + sep + j)[k]) {
        if k < |ws[0]| {
        } else if k < |ws[0]| + |sep| {
          assert (ws[0] + sep + j)[k] == sep[k - |ws[0]|];
        } else {
          assert (ws[0] + sep + j)[k] == j[k - |ws[0]| - |sep|];
        }
      }
    }
  }

  /** The snake form is the kebab form with `-` turned into `_`. */
  lemma SnakeIsKebabUnderscored(s: string)
    ensures ToSnakeCase(s) == ReplaceChar(ToKebabCase(s), '-', '_')
  {
    var ws := SplitWords(s);
    LowerAllWords(ws);
    JoinReplaceSep(ws);
  }

  lemma {:induction false} JoinReplaceSep(ws: seq<string>)
    requires AllWords(ws)
    ensures Join(ws, "_") == ReplaceChar(Join(ws, "-"), '-', '_')
  {
    if |ws| == 1 {
      assert ReplaceChar(ws[0], '-', '_') == ws[0];
    } else if |ws| > 1 {
      JoinReplaceSep(ws[1..]);
      var a := ws[0];
      var j := Join(ws[1..], "-");
      ReplaceCharAppend(a + "-", j, '-', '_');
      ReplaceCharAppend(a, "-", '-', '_');
      assert ReplaceChar(a, '-', '_') == a;
    }
  }

  lemma {:induction false} ReplaceCharAppend(x: string, y: string, a: char, b: char)
    ensures ReplaceChar(x + y, a, b) == ReplaceChar(x, a, b) + ReplaceChar(y, a, b)
  {
    if x == [] {
      assert x + y == y;
    } else {
      var h := [if x[0] == a then b else x[0]];
      assert (x + y)[0] == x[0];
      assert (x + y)[1..] == x[1..] + y;
      assert ReplaceChar(x + y, a, b) == h + ReplaceChar(x[1..] + y, a, b);
      ReplaceCharAppend(x[1..], y, a, b);
      ConcatAssoc(h, ReplaceChar(x[1..], a, b), ReplaceChar(y, a, b));
    }
  }

  /** Joining words with `sep` and splitting again gives the words back,
      for either separator the snake and kebab styles use. */
  lemma SplitJoined(ws: seq<string>, sep: char)
    requires AllWords(ws)
    requires sep == '_' || sep == '-'
    ensures SplitWords(Join(ws, [sep])) == ws
  {
    var j := Join(ws, [sep]);
    JoinNoUpper(ws, [sep]);
    InsertBoundariesNone(j);
    UnseparateJoin(ws, sep);
    JoinNoUpper(ws, " ");
    LowerOfLowercase(Join(ws, " "));
    WordsJoin(ws);
  }

  lemma {:induction false} UnseparateJoin(ws: seq<string>, sep: char)
    requires AllWords(ws)
    requires sep == '_' || sep == '-'
    ensures Unseparate(Join(ws, [sep])) == Join(ws, " ")
  {
    if |ws| == 1 {
      UnseparateWord(ws[0]);
    } else if |ws| > 1 {
      var a := ws[0];
      var rest := ws[1..];
      UnseparateJoin(rest, sep);
      var j := Join(rest, [sep]);
      assert Join(ws, [sep]) == (a + [sep]) + j;
      UnseparateAppend(a + [sep], j);
      UnseparateAppend(a, [sep]);
      assert Unseparate([sep]) == " ";
      UnseparateWord(a);
      assert Join(ws, " ") == (a + " ") + Join(rest, " ");
    }
  }

  lemma UnseparateWord(w: string)
    requires IsWord(w)
    ensures Unseparate(w) == w
  {
  }

  lemma {:induction false} UnseparateAppend(x: string, y: string)
    ensures Unseparate(x + y) == Unseparate(x) + Unseparate(y)
  {
    if x == [] {
      assert x + y == y;
    } else {
      var h := [if x[0] == '-' || x[0] == '_' then ' ' else x[0]];
      assert (x + y)[0] == x[0];
      assert (x + y)[1..] == x[1..] + y;
      assert Unseparate(x + y) == h + Unseparate(x[1..] + y);
      UnseparateAppend(x[1..], y);
      ConcatAssoc(h, Unseparate(x[1..]), Unseparate(y));
    }
  }

  /** Words that glue into Pascal or camel text whose word boundaries are
      exactly the joints: each starts with a lower-case letter, and each
      but the last has at least two characters and ends with a lower-case
      letter or digit. */
  predicate Gluable(ws: seq<string>)
  {
    && AllWords(ws)
    && forall i :: 0 <= i < |ws| ==>
         && IsLower(ws[i][0])
         && (i < |ws| - 1 ==> |ws[i]| >= 2 && (IsLower(ws[i][|ws[i]| - 1]) || IsDigit(ws[i][|ws[i]| - 1])))
  }

  lemma {:induction false} CapitalizedScan(w: string)
    requires IsWord(w)
    ensures InsertBoundaries(Capitalize(w)) == Capitalize(w)
    ensures Lower(Capitalize(w)) == w
  {
    var c := Capitalize(w);
    forall i | 0 <= i && i + 1 < |c| ensures !BoundaryAt(c, i) {
      assert c[i + 1] == ToLowerChar(w[i + 1]);
    }
    InsertBoundariesNone(c);
    forall i | 0 <= i < |w| ensures ToLowerChar(c[i]) == w[i] {
    }
  }

  lemma {:induction false} JoinHead(ws: seq<string>, sep: string)
    requires ws != [] && ws[0] != []
    ensures Join(ws, sep) != [] && Join(ws, sep)[0] == ws[0][0]
  {
    if |ws| > 1 {
      assert Join(ws, sep) == ws[0] + sep + Join(ws[1..], sep);
    }
  }

  /** A property of every character of the pieces and of the separator
      holds of every character of the joined text. */
  lemma {:induction false} JoinKeeps(ws: seq<string>, sep: string, p: char -> bool)
    requires forall j :: 0 <= j < |sep| ==> p(sep[j])
    requires forall i, j :: 0 <= i < |ws| && 0 <= j < |ws[i]| ==> p(ws[i][j])
    ensures forall j :: 0 <= j < |Join(ws, sep)| ==> p(Join(ws, sep)[j])
  {
    if |ws| > 1 {
      JoinKeeps(ws[1..], sep, p);
      var a := ws[0];
      var r := Join(ws[1..], sep);
      assert Join(ws, sep) == a + sep + r;
      forall j | 0 <= j < |a + sep + r| ensures p((a + sep + r)[j]) {
        if j < |a| {
          assert (a + sep + r)[j] == ws[0][j];
        } else if j < |a| + |sep| {
          assert (a + sep + r)[j] == sep[j - |a|];
        } else {
          assert (a + sep + r)[j] == r[j - |a| - |sep|];
        }
      }
    }
  }

  lemma {:induction false} LowerJoin(ws: seq<string>, sep: string)
    requires NoUpper(sep)
    ensures Lower(Join(ws, sep)) == Join(LowerAll(ws), sep)
  {
    if |ws| == 1 {
    } else if |ws| > 1 {
      LowerJoin(ws[1..], sep);
      assert LowerAll(ws)[1..] == LowerAll(ws[1..]);
      LowerAppend(ws[0] + sep, Join(ws[1..], sep));
      LowerAppend(ws[0], sep);
      LowerOfLowercase(sep);
    }
  }

  predicate NoSeparator(c: char) { c != '-' && c != '_' }

  /** No piece holds a `-` or `_`. */
  predicate Unseparated(cs: seq<string>)
  {
    forall i, j :: 0 <= i < |cs| && 0 <= j < |cs[i]| ==> NoSeparator(cs[i][j])
  }

  /** Piece `i` ends with a lower-case letter or digit and piece `i + 1`
      starts with a capital: a word boundary sits at their joint. */
  predicate JointAt(cs: seq<string>, i: int)
    requires 0 <= i < |cs| - 1
  {
    && cs[i] != [] && cs[i + 1] != []
    && (IsLower(cs[i][|cs[i]| - 1]) || IsDigit(cs[i][|cs[i]| - 1])) && IsUpper(cs[i + 1][0])
  }

  /** Pieces that glue with a word boundary at every joint and none
      inside a piece. */
  predicate Glues(cs: seq<string>)
  {
    && (forall i :: 0 <= i < |cs| ==> cs[i] != [] && InsertBoundaries(cs[i]) == cs[i])
    && (forall i :: 0 <= i < |cs| - 1 ==> JointAt(cs, i))
  }

  /** The scan puts a space at every joint of glued pieces. */
  lemma {:induction false} GlueBoundaries(cs: seq<string>)
    requires Glues(cs) && cs != []
    ensures InsertBoundaries(Join(cs, "")) == Join(cs, " ")
  {
    if |cs| > 1 {
      var rest := Join(cs[1..], "");
      forall i | 0 <= i < |cs[1..]| - 1 ensures JointAt(cs[1..], i) {
        assert JointAt(cs, i + 1);
      }
      assert JointAt(cs, 0);
      GlueBoundaries(cs[1..]);
      JoinHead(cs[1..], "");
      assert Join(cs, "") == cs[0] + rest by {
        assert Join(cs, "") == cs[0] + "" + rest;
      }
      InsertBoundariesSplit(cs[0], rest);
    }
  }

  /** Glued pieces without separators split into their lower-cased forms,
      when those are words. */
  lemma SplitGluedPieces(cs: seq<string>, ws: seq<string>)
    requires Glues(cs) && cs != []
    requires Unseparated(cs)
    requires AllWords(ws) && LowerAll(cs) == ws
    ensures SplitWords(Join(cs, "")) == ws
  {
    GlueBoundaries(cs);
    var spaced := Join(cs, " ");
    JoinKeeps(cs, " ", NoSeparator);
    assert Unseparate(spaced) == spaced;
    LowerJoin(cs, " ");
    WordsJoin(ws);
  }

  lemma CapitalizedPieces(ws: seq<string>)
    requires Gluable(ws)
    ensures Glues(CapitalizeAll(ws))
    ensures Unseparated(CapitalizeAll(ws))
    ensures LowerAll(CapitalizeAll(ws)) == ws
  {
    var cs := CapitalizeAll(ws);
    forall i | 0 <= i < |ws|
      ensures InsertBoundaries(cs[i]) == cs[i] && Lower(cs[i]) == ws[i]
      ensures forall j :: 0 <= j < |ws[i]| ==> NoSeparator(cs[i][j])
    {
      CapitalizedScan(ws[i]);
    }
    forall i | 0 <= i < |ws| - 1 ensures JointAt(cs, i) {
      assert cs[i][|cs[i]| - 1] == ToLowerChar(ws[i][|ws[i]| - 1]);
    }
  }

  /** Glued capitalised words split back into the words. */
  lemma SplitGlued(ws: seq<string>)
    requires Gluable(ws)
    ensures SplitWords(Join(CapitalizeAll(ws), "")) == ws
  {
    if ws == [] {
      assert InsertBoundaries("") == "";
      assert Words("") == [];
    } else {
      CapitalizedPieces(ws);
      SplitGluedPieces(CapitalizeAll(ws), ws);
    }
  }

  /** Pascal case keeps the words of its input when they glue cleanly,
      and is then idempotent. */
  lemma PascalRoundTrip(s: string)
    requires Gluable(SplitWords(s))
    ensures SplitWords(ToPascalCase(s)) == SplitWords(s)
    ensures ToPascalCase(ToPascalCase(s)) == ToPascalCase(s)
  {
    SplitGlued(SplitWords(s));
  }

  /** The pieces camel case glues: the first word as it is, then the
      others capitalised. */
  lemma CamelPieces(ws: seq<string>)
    requires Gluable(ws) && ws != []
    ensures Glues([ws[0]] + CapitalizeAll(ws[1..]))
    ensures Unseparated([ws[0]] + CapitalizeAll(ws[1..]))
    ensures LowerAll([ws[0]] + CapitalizeAll(ws[1..])) == ws
  {
    var w := ws[0];
    var caps := CapitalizeAll(ws[1..]);
    assert Gluable(ws[1..]);
    CapitalizedPieces(ws[1..]);
    InsertBoundariesNone(w);
    LowerOfLowercase(w);
    CamelJoints(ws);
  }

  lemma CamelJoints(ws: seq<string>)
    requires Gluable(ws) && ws != []
    requires Glues(CapitalizeAll(ws[1..]))
    ensures forall i :: 0 <= i < |ws| - 1 ==> JointAt([ws[0]] + CapitalizeAll(ws[1..]), i)
  {
    var caps := CapitalizeAll(ws[1..]);
    var cs := [ws[0]] + caps;
    forall i | 0 <= i < |cs| - 1 ensures JointAt(cs, i) {
      if i == 0 {
        assert caps[0][0] == ToUpperChar(ws[1][0]);
      } else {
        assert JointAt(caps, i - 1);
      }
    }
  }

  lemma JoinFront(w: string, rest: seq<string>)
    requires NoUpper(w)
    ensures Lower(w) + Join(rest, "") == Join([w] + rest, "")
  {
    LowerOfLowercase(w);
    if rest != [] {
      JoinCons(w, rest, "");
    }
  }

  /** Camel case glues the first word, kept, to the others capitalised. */
  lemma CamelAsPieces(s: string)
    requires HasWords(s)
    ensures ToCamelCase(s) == Join([SplitWords(s)[0]] + CapitalizeAll(SplitWords(s)[1..]), "")
  {
    var ws := SplitWords(s);
    JoinFront(ws[0], CapitalizeAll(ws[1..]));
  }

  /** Camel case likewise keeps the words of its input. */
  lemma CamelRoundTrip(s: string)
    requires HasWords(s) && Gluable(SplitWords(s))
    ensures HasWords(ToCamelCase(s))
    ensures SplitWords(ToCamelCase(s)) == SplitWords(s)
    ensures ToCamelCase(ToCamelCase(s)) == ToCamelCase(s)
  {
    var ws := SplitWords(s);
    CamelAsPieces(s);
    CamelPieces(ws);
    SplitGluedPieces([ws[0]] + CapitalizeAll(ws[1..]), ws);
  }

  /** Snake input re-cased to Pascal capitalises each of its words. */
  lemma SnakeToPascal(ws: seq<string>)
    requires AllWords(ws)
    ensures ToPascalCase(Join(ws, "_")) == Join(CapitalizeAll(ws), "")
  {
    SplitJoined(ws, '_');
  }

  /** Pascal input re-cased to snake recovers the words, when they glue. */
  lemma PascalToSnake(ws: seq<string>)
    requires Gluable(ws)
    ensures ToSnakeCase(Join(CapitalizeAll(ws), "")) == Join(ws, "_")
  {
    SplitGlued(ws);
    LowerAllWords(ws);
  }

  /** Kebab input re-cased to camel keeps its first word and capitalises
      the others. */
  lemma KebabToCamel(ws: seq<string>)
    requires AllWords(ws) && ws != []
    ensures HasWords(Join(ws, "-"))
    ensures ApplyCase(Join(ws, "-"), Camel) == Some(ws[0] + Join(CapitalizeAll(ws[1..]), ""))
  {
    SplitJoined(ws, '-');
    LowerOfLowercase(ws[0]);
  }

  /** Without that condition Pascal case can merge words: `a_b` has the
      words `a` and `b`, which glue into `AB`, a single word. */
  lemma PascalMergesWords()
    ensures SplitWords("a_b") == ["a", "b"]
    ensures ToPascalCase("a_b") == "AB"
    ensures SplitWords("AB") == ["ab"]
  {
    SplitSnakeAB();
    PascalAB();
    SplitCapitals();
  }

  lemma SplitSnakeAB()
    ensures SplitWords("a_b") == ["a", "b"]
  {
    SplitSeparatedLiteral("a_b", ["a", "b"], '_');
  }

  lemma PascalAB()
    ensures ToPascalCase("a_b") == "AB"
  {
    SplitSnakeAB();
    CapitalizeTwo("a", "b", "A", "B");
  }

  lemma SplitCapitals()
    ensures SplitWords("AB") == ["ab"]
  {
    CapitalsText();
    assert Join(["ab"], " ") == "ab";
    SplitWordsVia("AB", ["ab"]);
  }

  lemma CapitalsText()
    ensures Lower(Unseparate(InsertBoundaries("AB"))) == "ab"
  {
    var s := "AB";
    InsertBoundariesCons('A', "B");
    assert InsertBoundaries("B") == "B";
    assert [s[0]] + "B" == s;
    UnseparateNoSeparator(s);
    assert Lower(s) == "ab";
  }

  /** Text without separators is unchanged by replacing them. */
  lemma UnseparateNoSeparator(s: string)
    requires forall i :: 0 <= i < |s| ==> NoSeparator(s[i])
    ensures Unseparate(s) == s
  {
  }

  /** `applyCase`.  `None` stands for the exception camel case throws on
      input with no words. */
  function ApplyCase(s: string, style: CaseStyle): (r: Option<string>)
    ensures r.None? <==> style == Camel && !HasWords(s)
    ensures r.Some? && style == Camel ==> r.value == ToCamelCase(s)
    ensures r.Some? && style == Pascal ==> r.value == ToPascalCase(s)
    ensures r.Some? && style == Snake ==> r.value == ToSnakeCase(s)
    ensures r.Some? && style == Kebab ==> r.value == ToKebabCase(s)
    ensures r.Some? && (style == Camel || style == Pascal) ==> Lower(r.value) == Join(SplitWords(s), "")
    ensures r.Some? && (style == Snake || style == Kebab) ==> NoUpper(r.value) && SplitWords(r.value) == SplitWords(s)
  {
    match style
    case Camel => if HasWords(s) then Some(ToCamelCase(s)) else None
    case Pascal => Some(ToPascalCase(s))
    case Snake => Some(ToSnakeCase(s))
    case Kebab => Some(ToKebabCase(s))
  }

  function OrEmpty(o: Option<string>): string
  {
    if o.Some? then o.value else ""
  }

  /** `applyAffixes`: an absent prefix or suffix counts as empty. */
  function ApplyAffixes(s: string, prefix: Option<string>, suffix: Option<string>): (r: string)
    ensures |r| == |OrEmpty(prefix)| + |s| + |OrEmpty(suffix)|
    ensures StartsWith(r, OrEmpty(prefix)) && EndsWith(r, OrEmpty(suffix))
    ensures r[|OrEmpty(prefix)|..|r| - |OrEmpty(suffix)|] == s
  {
    OrEmpty(prefix) + s + OrEmpty(suffix)
  }

  /** A non-empty extension is appended after a dot; an absent or empty
      one adds nothing. */
  function WithExtension(s: string, fileExtension: Option<string>): (r: string)
    ensures OrEmpty(fileExtension) == "" ==> r == s
    ensures OrEmpty(fileExtension) != "" ==>
              |r| == |s| + 1 + |fileExtension.value| && r[..|s|] == s
              && r[|s|] == '.' && r[|s| + 1..] == fileExtension.value
  {
    if OrEmpty(fileExtension) != "" then s + "." + fileExtension.value else s
  }

  /** `formatName`.  Affixes are attached before re-casing, so they are
      re-cased with the name; the extension is not. */
  function FormatName(raw: string, style: CaseStyle, prefix: Option<string>, suffix: Option<string>,
                      fileExtension: Option<string>): (r: Option<string>)
    ensures r.None? <==> style == Camel && !HasWords(ApplyAffixes(raw, prefix, suffix))
    ensures r.Some? ==> r.value == WithExtension(ApplyCase(ApplyAffixes(raw, prefix, suffix), style).value, fileExtension)
  {
    match ApplyCase(ApplyAffixes(raw, prefix, suffix), style)
    case None => None
    case Some(cased) => Some(WithExtension(cased, fileExtension))
  }

  // ---------------------------------------------------------------------
  // Worked examples
  // ---------------------------------------------------------------------

  /** The splitter's result, from the text it cuts. */
  lemma SplitWordsVia(s: string, ws: seq<string>)
    requires forall i :: 0 <= i < |ws| ==> ws[i] != [] && forall j :: 0 <= j < |ws[i]| ==> !IsSpace(ws[i][j])
    requires Lower(Unseparate(InsertBoundaries(s))) == Join(ws, " ")
    ensures SplitWords(s) == ws
  {
    WordsJoin(ws);
  }

  lemma SplitSeparatedLiteral(s: string, ws: seq<string>, sep: char)
    requires AllWords(ws) && (sep == '_' || sep == '-')
    requires s == Join(ws, [sep])
    ensures SplitWords(s) == ws
  {
    SplitJoined(ws, sep);
  }

  lemma CapitalizeLiteral(a: string, ca: string)
    requires a != [] && ca == [ToUpperChar(a[0])] + a[1..] && NoUpper(a[1..])
    ensures Capitalize(a) == ca
  {
    LowerOfLowercase(a[1..]);
  }

  lemma CapitalizeAllTwo(a: string, b: string)
    ensures CapitalizeAll([a, b]) == [Capitalize(a), Capitalize(b)]
  {
  }

  lemma JoinTwo(a: string, b: string, sep: string)
    ensures Join([a, b], sep) == a + sep + b
  {
  }

  lemma CapitalizeTwo(a: string, b: string, ca: string, cb: string)
    requires a != [] && ca == [ToUpperChar(a[0])] + a[1..] && NoUpper(a[1..])
    requires b != [] && cb == [ToUpperChar(b[0])] + b[1..] && NoUpper(b[1..])
    ensures Join(CapitalizeAll([a, b]), "") == ca + cb
  {
    CapitalizeLiteral(a, ca);
    CapitalizeLiteral(b, cb);
    CapitalizeAllTwo(a, b);
    JoinTwo(ca, cb, "");
  }

  lemma CapitalizeOne(a: string, ca: string)
    requires a != [] && ca == [ToUpperChar(a[0])] + a[1..] && NoUpper(a[1..])
    ensures Join(CapitalizeAll([a]), "") == ca
  {
    CapitalizeLiteral(a, ca);
    assert CapitalizeAll([a]) == [ca];
  }

  /** A name that reads as one word: no white space or separator, and no
      capital after its first character. */
  predicate OneWord(w: string)
  {
    && w != []
    && (forall i :: 0 <= i < |w| ==> !IsSpace(w[i]) && NoSeparator(w[i]))
    && (forall i :: 1 <= i < |w| ==> !IsUpper(w[i]))
  }

  /** Affixes are re-cased with the name they are attached to: a kebab
      prefix word and its `-` stay in front of the lowered name. */
  lemma KebabPrefixRecased(p: string, w: string)
    requires IsWord(p) && OneWord(w)
    ensures FormatName(w, Kebab, Some(p + "-"), None, None) == Some(p + "-" + Lower(w))
  {
    var s := p + "-" + w;
    assert ApplyAffixes(w, Some(p + "-"), None) == s;
    KebabPrefixWords(p, w);
    LowerOfLowercase(p);
    LowerOfLowercase(Lower(w));
    assert LowerAll([p, Lower(w)]) == [p, Lower(w)];
    JoinTwo(p, Lower(w), "-");
  }

  lemma KebabPrefixWords(p: string, w: string)
    requires IsWord(p) && OneWord(w)
    ensures SplitWords(p + "-" + w) == [p, Lower(w)]
  {
    var s := p + "-" + w;
    PrefixedNoBoundary(p, w);
    PrefixedUnseparate(p, w);
    LowerSpaced(p, w);
    JoinTwo(p, Lower(w), " ");
    LowerKeepsSpaces(w);
    SplitWordsVia(s, [p, Lower(w)]);
  }

  lemma PrefixedNoBoundary(p: string, w: string)
    requires IsWord(p) && OneWord(w)
    ensures InsertBoundaries(p + "-" + w) == p + "-" + w
  {
    var s := p + "-" + w;
    forall i | 0 <= i && i + 1 < |s| ensures !BoundaryAt(s, i) {
      if i + 1 < |p| {
        assert s[i + 1] == p[i + 1];
      } else if i + 1 == |p| {
        assert s[i + 1] == '-';
      } else if i == |p| {
        assert s[i] == '-';
      } else {
        assert s[i + 1] == w[i - |p|];
      }
    }
    InsertBoundariesNone(s);
  }

  lemma PrefixedUnseparate(p: string, w: string)
    requires IsWord(p) && OneWord(w)
    ensures Unseparate(p + "-" + w) == p + " " + w
  {
    var s := p + "-" + w;
    var u := p + " " + w;
    forall i | 0 <= i < |s| ensures Unseparate(s)[i] == u[i] {
      if i < |p| {
        assert s[i] == p[i] && u[i] == p[i];
      } else if i > |p| {
        assert s[i] == w[i - |p| - 1] && u[i] == w[i - |p| - 1];
      }
    }
  }

  lemma LowerSpaced(p: string, w: string)
    requires NoUpper(p)
    ensures Lower(p + " " + w) == p + " " + Lower(w)
  {
    LowerAppend(p + " ", w);
    LowerAppend(p, " ");
    LowerOfLowercase(p);
    assert Lower(" ") == " ";
  }

  lemma LowerKeepsSpaces(w: string)
    requires forall i :: 0 <= i < |w| ==> !IsSpace(w[i])
    ensures forall i :: 0 <= i < |Lower(w)| ==> !IsSpace(Lower(w)[i])
  {
  }

  /** The prefix `i-` before `Order`, in kebab case, gives `i-order`. */
  lemma PrefixRecased()
    ensures FormatName("Order", Kebab, Some("i-"), None, None) == Some("i-order")
  {
    OrderIsOneWord();
    KebabPrefixRecased("i", "Order");
    PrefixOrderText();
  }

  lemma OrderIsOneWord()
    ensures IsWord("i") && OneWord("Order")
  {
  }

  lemma PrefixOrderText()
    ensures "i" + "-" == "i-"
    ensures "i" + "-" + Lower("Order") == "i-order"
  {
    assert Lower("Order") == "order";
  }

  /** Camel case throws on a name made only of separators. */
  lemma CamelOfSeparatorsFails()
    ensures ApplyCase("__", Camel).None?
  {
    assert InsertBoundaries("__") == "__";
    assert Unseparate("__") == "  ";
    assert Lower("  ") == "  ";
    assert Words("  ") == Words(" ");
    assert Words(" ") == Words("");
  }
}
