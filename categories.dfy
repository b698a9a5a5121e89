/**
 * The category parser of a product row: the optional "Product Categories"
 * field, read as `""` when absent, is split on `,`, each piece is trimmed,
 * and the pieces left empty are dropped. The result keeps the input order
 * and its duplicates.
 */
module CategoryParser {
  import opened Wrappers

  type Category = seq<char>

  /**
   * The characters that JavaScript's `String.prototype.trim` removes:
   * ECMAScript's WhiteSpace (tab U+0009, vertical tab U+000B, form feed U+000C, space U+0020,
   * no-break space U+00A0, zero-width no-break space U+FEFF and the other space separators of
   * Unicode category Zs: U+1680, U+2000 to U+200A, U+202F, U+205F, U+3000)
   * and LineTerminator (line feed U+000A, carriage return U+000D, U+2028,
   * U+2029).
   */
  predicate IsWhitespace(c: char) {
    var n := c as int;
    || 0x09 <= n <= 0x0D || n == 0x20 || n == 0xA0 || n == 0x1680
    || 0x2000 <= n <= 0x200A || n == 0x2028 || n == 0x2029 || n == 0x202F
    || n == 0x205F || n == 0x3000 || n == 0xFEFF
  }

  /** The number of commas in `s`. */
  function CommaCount(s: seq<char>): nat {
    if s == [] then 0 else (if s[0] == ',' then 1 else 0) + CommaCount(s[1..])
  }

  // ---------------------------------------------------------------------
  // split(",")
  // ---------------------------------------------------------------------

  /**
   * `s.split(",")`: the maximal comma-free pieces of `s`, in order. As in
   * JavaScript, there is always one more piece than there are commas, so
   * `""` gives `[""]` and `"a,,b"` gives `["a", "", "b"]`.
   */
  function Split(s: seq<char>): (r: seq<seq<char>>)
    ensures |r| == CommaCount(s) + 1
    decreases |s|
  {
    if s == [] then [[]]
    else
      var rest := Split(s[1..]);
      if s[0] == ',' then [[]] + rest
      else [[s[0]] + rest[0]] + rest[1..]
  }

  /** No piece of a split holds a comma. */
  lemma {:induction false} SplitCommaFree(s: seq<char>)
    ensures forall i :: 0 <= i < |Split(s)| ==> ',' !in Split(s)[i]
    decreases |s|
  {
    if s != [] {
      SplitCommaFree(s[1..]);
      var rest := Split(s[1..]);
      var r := Split(s);
      if s[0] == ',' {
        assert forall i :: 1 <= i < |r| ==> r[i] == rest[i - 1];
      } else {
        assert r[0] == [s[0]] + rest[0];
        assert forall i :: 1 <= i < |r| ==> r[i] == rest[i];
      }
    }
  }

  /** `parts.join(",")`; `[].join(",")` is `""`. */
  function Join(parts: seq<seq<char>>): seq<char> {
    if parts == [] then []
    else if |parts| == 1 then parts[0]
    else parts[0] + [','] + Join(parts[1..])
  }

  /** Joining the pieces of a split with commas gives back the string. */
  lemma {:induction false} JoinSplit(s: seq<char>)
    ensures Join(Split(s)) == s
    decreases |s|
  {
    if s != [] {
      JoinSplit(s[1..]);
      var rest := Split(s[1..]);
      if s[0] == ',' {
        assert s == [] + [','] + s[1..];
      } else if |rest| == 1 {
        assert s == [s[0]] + rest[0];
      } else {
        assert Join(rest) == rest[0] + [','] + Join(rest[1..]);
        var r := Split(s);
        assert r[1..] == rest[1..];
        assert s == ([s[0]] + rest[0]) + [','] + Join(rest[1..]);
      }
    }
  }

  /** A comma-free string splits into itself alone. */
  lemma {:induction false} SplitNoComma(s: seq<char>)
    requires ',' !in s
    ensures Split(s) == [s]
    decreases |s|
  {
    if s != [] {
      assert s[0] in s;
      assert forall c :: c in s[1..] ==> c in s;
      SplitNoComma(s[1..]);
      assert [s[0]] + s[1..] == s;
    }
  }

  /** One step of Split: a comma opens a new piece, any other character joins the first. */
  lemma SplitCons(c: char, t: seq<char>)
    ensures Split([c] + t) ==
            if c == ',' then [[]] + Split(t) else [[c] + Split(t)[0]] + Split(t)[1..]
  {
    assert ([c] + t)[1..] == t;
  }

  /** Splitting at a comma concatenates the splits of the two sides. */
  lemma {:induction false} SplitConcat(a: seq<char>, b: seq<char>)
    ensures Split(a + [','] + b) == Split(a) + Split(b)
    decreases |a|
  {
    if a == [] {
      assert a + [','] + b == [','] + b;
      SplitCons(',', b);
    } else {
      var t := a[1..] + [','] + b;
      assert a + [','] + b == [a[0]] + t;
      assert a == [a[0]] + a[1..];
      SplitConcat(a[1..], b);
      SplitCons(a[0], t);
      SplitCons(a[0], a[1..]);
      PrependPiece(a[0], Split(a[1..]), Split(b));
    }
  }

  /** The bookkeeping behind one step of SplitConcat, on the pieces alone. */
  lemma PrependPiece(c: char, front: seq<seq<char>>, back: seq<seq<char>>)
    requires |front| >= 1
    ensures (if c == ',' then [[]] + (front + back)
             else [[c] + (front + back)[0]] + (front + back)[1..])
         == (if c == ',' then [[]] + front else [[c] + front[0]] + front[1..]) + back
  {
    if c != ',' {
      assert (front + back)[1..] == front[1..] + back;
    }
  }

  /** A comma-free prefix followed by a comma becomes the first piece. */
  lemma SplitAfterComma(a: seq<char>, b: seq<char>)
    requires ',' !in a
    ensures Split(a + [','] + b) == [a] + Split(b)
  {
    SplitConcat(a, b);
    SplitNoComma(a);
  }

  /** Splitting a join of comma-free pieces gives back the pieces. */
  lemma {:induction false} SplitJoin(parts: seq<seq<char>>)
    requires parts != []
    requires forall i :: 0 <= i < |parts| ==> ',' !in parts[i]
    ensures Split(Join(parts)) == parts
    decreases |parts|
  {
    if |parts| == 1 {
      SplitNoComma(parts[0]);
    } else {
      SplitJoin(parts[1..]);
      SplitAfterComma(parts[0], Join(parts[1..]));
      assert [parts[0]] + parts[1..] == parts;
    }
  }

  /** Every character of `s` other than a comma lies in some piece of its split. */
  lemma {:induction false} SplitCovers(s: seq<char>, k: nat)
    requires k < |s| && s[k] != ','
    ensures exists i :: 0 <= i < |Split(s)| && s[k] in Split(s)[i]
    decreases |s|
  {
    var r := Split(s);
    if k == 0 {
      assert s[0] in r[0];
    } else {
      SplitCovers(s[1..], k - 1);
      var rest := Split(s[1..]);
      var i :| 0 <= i < |rest| && s[k] in rest[i];
      if s[0] == ',' {
        assert r[i + 1] == rest[i];
      } else if i == 0 {
        assert r[0] == [s[0]] + rest[0];
      } else {
        assert r[i] == rest[i];
      }
    }
  }

  /** Every character of every piece of the split of `s` is a character of `s`. */
  lemma {:induction false} SplitChars(s: seq<char>, i: nat, c: char)
    requires i < |Split(s)| && c in Split(s)[i]
    ensures c in s
    decreases |s|
  {
    if s != [] {
      var rest := Split(s[1..]);
      if s[0] == ',' {
        assert i > 0 && c in rest[i - 1];
        SplitChars(s[1..], i - 1, c);
      } else if i == 0 {
        if c != s[0] {
          assert c in rest[0];
          SplitChars(s[1..], 0, c);
        }
      } else {
        assert Split(s)[i] == rest[i];
        SplitChars(s[1..], i, c);
      }
    }
  }

  // ---------------------------------------------------------------------
  // trim()
  // ---------------------------------------------------------------------

  /** Every character of `s` is whitespace (vacuously so for `""`). */
  predicate AllWhitespace(s: seq<char>) {
    forall k :: 0 <= k < |s| ==> IsWhitespace(s[k])
  }

  /** `s` neither begins nor ends with whitespace. */
  predicate IsTrimmed(s: seq<char>) {
    s == [] || (!IsWhitespace(s[0]) && !IsWhitespace(s[|s| - 1]))
  }

  /** Every character of `r` occurs in `s`. */
  predicate CharsWithin(r: seq<char>, s: seq<char>) {
    forall c :: c in r ==> c in s
  }

  /** How many characters of whitespace `s` begins with. */
  function LeadingWhitespace(s: seq<char>): (n: nat)
    ensures n <= |s|
    ensures forall k :: 0 <= k < n ==> IsWhitespace(s[k])
    ensures n < |s| ==> !IsWhitespace(s[n])
    decreases |s|
  {
    if s != [] && IsWhitespace(s[0]) then 1 + LeadingWhitespace(s[1..]) else 0
  }

  /** How many characters of whitespace `s` ends with. */
  function TrailingWhitespace(s: seq<char>): (n: nat)
    ensures n <= |s|
    ensures forall k :: |s| - n <= k < |s| ==> IsWhitespace(s[k])
    ensures n < |s| ==> !IsWhitespace(s[|s| - 1 - n])
    decreases |s|
  {
    if s != [] && IsWhitespace(s[|s| - 1]) then 1 + TrailingWhitespace(s[..|s| - 1]) else 0
  }

  /**
   * `s.trim()`: the infix of `s` left once whitespace is removed from both
   * ends. It is empty exactly when `s` is all whitespace, and otherwise it
   * begins and ends with a character that is not whitespace.
   */
  function Trim(s: seq<char>): (r: seq<char>)
    ensures IsTrimmed(r)
    ensures CharsWithin(r, s)
    ensures r == [] <==> AllWhitespace(s)
  {
    var i := LeadingWhitespace(s);
    if i == |s| then []
    else
      var j := |s| - TrailingWhitespace(s);
      assert i < j;
      var r := s[i..j];
      assert r[0] == s[i] && r[|r| - 1] == s[j - 1];
      assert !AllWhitespace(s) by { assert !IsWhitespace(s[i]); }
      r
  }

  /**
   * What trim() removes is a whitespace prefix and a whitespace suffix, and
   * the input is those with the result between them.
   */
  lemma TrimStripsPadding(s: seq<char>)
    ensures exists p, q :: s == p + Trim(s) + q && AllWhitespace(p) && AllWhitespace(q)
  {
    var i := LeadingWhitespace(s);
    if i == |s| {
      assert s == s + Trim(s) + [];
      assert AllWhitespace([]);
    } else {
      var j := |s| - TrailingWhitespace(s);
      assert s == s[..i] + s[i..j] + s[j..];
      assert AllWhitespace(s[..i]) && AllWhitespace(s[j..]);
    }
  }

  /** A string that already has no whitespace at either end is its own trim. */
  lemma TrimTrimmed(s: seq<char>)
    requires IsTrimmed(s)
    ensures Trim(s) == s
  {
    if s != [] {
      assert LeadingWhitespace(s) == 0;
      assert TrailingWhitespace(s) == 0;
      assert s[0..|s|] == s;
    }
  }

  /** Trimming twice is trimming once. */
  lemma TrimIdempotent(s: seq<char>)
    ensures Trim(Trim(s)) == Trim(s)
  {
    TrimTrimmed(Trim(s));
  }

  /**
   * The whitespace table on characters at the edges: no-break space and the
   * ideographic space are trimmed, while next line (U+0085) and the
   * zero-width space (U+200B) are not whitespace to `trim()` and stay.
   */
  lemma WhitespaceTable()
    ensures Trim("\U{00A0}a\U{3000}") == "a"
    ensures Trim("\U{0085}a\U{200B}") == "\U{0085}a\U{200B}"
  {
    TrimSurrounded("\U{00A0}", "a", "\U{3000}");
    assert "\U{00A0}a\U{3000}" == "\U{00A0}" + "a" + "\U{3000}";
    TrimTrimmed("\U{0085}a\U{200B}");
  }

  /**
   * Trim removes exactly the surrounding whitespace: padding a trimmed
   * string with whitespace on either side and trimming gives it back.
   */
  lemma TrimSurrounded(p: seq<char>, m: seq<char>, q: seq<char>)
    requires AllWhitespace(p) && AllWhitespace(q) && IsTrimmed(m)
    ensures Trim(p + m + q) == m
  {
    var s := p + m + q;
    if m == [] {
      assert AllWhitespace(s) by {
        forall k | 0 <= k < |s| ensures IsWhitespace(s[k]) {
          if k < |p| { assert s[k] == p[k]; } else { assert s[k] == q[k - |p|]; }
        }
      }
    } else {
      var i := LeadingWhitespace(s);
      assert s[|p|] == m[0];
      assert i == |p|;
      var n := TrailingWhitespace(s);
      assert s[|p| + |m| - 1] == m[|m| - 1];
      assert n == |q|;
      assert s[|p|..|p| + |m|] == m;
    }
  }

  /** `xs.map(x => x.trim())`. */
  function TrimAll(xs: seq<seq<char>>): (r: seq<seq<char>>)
    ensures |r| == |xs|
    ensures forall i :: 0 <= i < |xs| ==> r[i] == Trim(xs[i])
  {
    if xs == [] then [] else [Trim(xs[0])] + TrimAll(xs[1..])
  }

  /** Trimming every element distributes over concatenation. */
  lemma {:induction false} TrimAllConcat(xs: seq<seq<char>>, ys: seq<seq<char>>)
    ensures TrimAll(xs + ys) == TrimAll(xs) + TrimAll(ys)
  {
    if xs == [] {
      assert xs + ys == ys;
    } else {
      assert (xs + ys)[1..] == xs[1..] + ys;
      TrimAllConcat(xs[1..], ys);
    }
  }

  /** Trimming pieces that are already trimmed changes nothing. */
  lemma TrimAllTrimmed(xs: seq<seq<char>>)
    requires forall i :: 0 <= i < |xs| ==> Trim(xs[i]) == xs[i]
    ensures TrimAll(xs) == xs
  {
  }

  // ---------------------------------------------------------------------
  // filter(x => x)
  // ---------------------------------------------------------------------

  /** `a` occurs in `b` in order, possibly with gaps. */
  predicate IsSubsequence<T(==)>(a: seq<T>, b: seq<T>)
    decreases |b|
  {
    if a == [] then true
    else if b == [] then false
    else if a[0] == b[0] then IsSubsequence(a[1..], b[1..])
    else IsSubsequence(a, b[1..])
  }

  /**
   * `xs.filter(x => x)` on strings: the empty string is the only falsy one,
   * so exactly the empty elements go. Every other element is kept, in order,
   * with its multiplicity.
   */
  function RemoveEmpty(xs: seq<seq<char>>): (r: seq<seq<char>>)
    ensures forall i :: 0 <= i < |r| ==> r[i] != [] && r[i] in xs
    ensures IsSubsequence(r, xs)
    ensures multiset(r) == multiset(xs)[[] := 0]
    ensures |r| <= |xs|
  {
    if xs == [] then []
    else
      var rest := RemoveEmpty(xs[1..]);
      assert xs == [xs[0]] + xs[1..];
      if xs[0] == [] then rest else [xs[0]] + rest
  }

  /** Filtering a sequence with no empty element keeps all of it. */
  lemma {:induction false} RemoveEmptyNone(xs: seq<seq<char>>)
    requires forall i :: 0 <= i < |xs| ==> xs[i] != []
    ensures RemoveEmpty(xs) == xs
  {
    if xs != [] {
      RemoveEmptyNone(xs[1..]);
      assert [xs[0]] + xs[1..] == xs;
    }
  }

  /** Filtering distributes over concatenation, so the kept elements stay in order. */
  lemma {:induction false} RemoveEmptyConcat(xs: seq<seq<char>>, ys: seq<seq<char>>)
    ensures RemoveEmpty(xs + ys) == RemoveEmpty(xs) + RemoveEmpty(ys)
  {
    if xs == [] {
      assert xs + ys == ys;
    } else {
      assert (xs + ys)[1..] == xs[1..] + ys;
      RemoveEmptyConcat(xs[1..], ys);
    }
  }

  /** Filtering is empty exactly when every element is empty. */
  lemma {:induction false} RemoveEmptyIsEmpty(xs: seq<seq<char>>)
    ensures RemoveEmpty(xs) == [] <==> forall i :: 0 <= i < |xs| ==> xs[i] == []
  {
    if xs != [] {
      RemoveEmptyIsEmpty(xs[1..]);
      assert forall i :: 1 <= i < |xs| ==> xs[i] == xs[1..][i - 1];
    }
  }

  // ---------------------------------------------------------------------
  // The whole expression
  // ---------------------------------------------------------------------

  /** `raw.split(",").map(c => c.trim()).filter(c => c)`. */
  function ParseCategories(raw: seq<char>): (r: seq<Category>)
    ensures forall i :: 0 <= i < |r| ==> r[i] != []
    ensures forall i :: 0 <= i < |r| ==> !IsWhitespace(r[i][0]) && !IsWhitespace(r[i][|r[i]| - 1])
    ensures forall i :: 0 <= i < |r| ==> ',' !in r[i]
    ensures |r| <= CommaCount(raw) + 1
    ensures IsSubsequence(r, TrimAll(Split(raw)))
    ensures multiset(r) == multiset(TrimAll(Split(raw)))[[] := 0]
  {
    var trimmed := TrimAll(Split(raw));
    SplitCommaFree(raw);
    TrimAllShape(Split(raw));
    RemoveEmptyShape(trimmed);
    RemoveEmpty(trimmed)
  }

  /** Trimming comma-free pieces gives trimmed, comma-free pieces. */
  lemma TrimAllShape(pieces: seq<seq<char>>)
    requires forall i :: 0 <= i < |pieces| ==> ',' !in pieces[i]
    ensures forall i :: 0 <= i < |TrimAll(pieces)| ==>
              IsTrimmed(TrimAll(pieces)[i]) && ',' !in TrimAll(pieces)[i]
  {
    forall i | 0 <= i < |pieces| ensures ',' !in Trim(pieces[i]) {
      TrimKeepsCommaFree(pieces[i]);
    }
  }

  /** Dropping the empty elements keeps every element's shape. */
  lemma RemoveEmptyShape(xs: seq<seq<char>>)
    requires forall i :: 0 <= i < |xs| ==> IsTrimmed(xs[i]) && ',' !in xs[i]
    ensures forall i :: 0 <= i < |RemoveEmpty(xs)| ==>
              IsTrimmed(RemoveEmpty(xs)[i]) && ',' !in RemoveEmpty(xs)[i]
  {
    var r := RemoveEmpty(xs);
    forall i | 0 <= i < |r| ensures IsTrimmed(r[i]) && ',' !in r[i] {
      var j :| 0 <= j < |xs| && xs[j] == r[i];
    }
  }

  /** Trimming a comma-free piece leaves it comma-free. */
  lemma TrimKeepsCommaFree(p: seq<char>)
    requires ',' !in p
    ensures ',' !in Trim(p)
  {
    assert CharsWithin(Trim(p), p);
  }

  /** ParseCategories is the three stages one after the other. */
  lemma ParseStages(raw: seq<char>, pieces: seq<seq<char>>, trimmed: seq<seq<char>>)
    requires Split(raw) == pieces && TrimAll(pieces) == trimmed
    ensures ParseCategories(raw) == RemoveEmpty(trimmed)
  {
  }

  /**
   * The field as the row reads it: `record.fields["Product Categories"] || ""`,
   * so an absent field parses as the empty string.
   */
  function CategoriesOf(field: Option<seq<char>>): (r: seq<Category>)
    ensures field.None? ==> r == []
    ensures field.Some? ==> r == ParseCategories(field.value)
  {
    ParseCategories(field.GetOr([]))
  }

  /** The input holds nothing but commas and whitespace. */
  predicate IsBlank(raw: seq<char>) {
    forall k :: 0 <= k < |raw| ==> raw[k] == ',' || IsWhitespace(raw[k])
  }

  /** Every piece of the split of a blank input is all whitespace. */
  lemma {:induction false} BlankPieces(raw: seq<char>, i: nat)
    requires IsBlank(raw) && i < |Split(raw)|
    ensures Trim(Split(raw)[i]) == []
  {
    var p := Split(raw)[i];
    SplitCommaFree(raw);
    forall k | 0 <= k < |p| ensures IsWhitespace(p[k]) {
      SplitChars(raw, i, p[k]);
      var m :| 0 <= m < |raw| && raw[m] == p[k];
    }
  }

  /** A character that is neither a comma nor whitespace survives into some trimmed piece. */
  lemma {:induction false} ContentSurvives(raw: seq<char>, k: nat)
    requires k < |raw| && raw[k] != ',' && !IsWhitespace(raw[k])
    ensures exists i :: 0 <= i < |Split(raw)| && Trim(Split(raw)[i]) != []
  {
    var pieces := Split(raw);
    SplitCovers(raw, k);
    var i :| 0 <= i < |pieces| && raw[k] in pieces[i];
    var j :| 0 <= j < |pieces[i]| && pieces[i][j] == raw[k];
    assert Trim(pieces[i]) != [];
  }

  /**
   * The parse is empty exactly when the input holds nothing but commas and
   * whitespace (in particular when it is empty).
   */
  lemma ParseEmptyIff(raw: seq<char>)
    ensures ParseCategories(raw) == [] <==> IsBlank(raw)
  {
    var pieces := Split(raw);
    var trimmed := TrimAll(pieces);
    RemoveEmptyIsEmpty(trimmed);
    if IsBlank(raw) {
      forall i | 0 <= i < |trimmed| ensures trimmed[i] == [] {
        BlankPieces(raw, i);
      }
    } else {
      var k :| 0 <= k < |raw| && raw[k] != ',' && !IsWhitespace(raw[k]);
      ContentSurvives(raw, k);
    }
  }

  /**
   * The categories of two comma-separated halves are those of the first
   * half followed by those of the second: order and duplicates are kept.
   */
  lemma ParseConcat(a: seq<char>, b: seq<char>)
    ensures ParseCategories(a + [','] + b) == ParseCategories(a) + ParseCategories(b)
  {
    SplitConcat(a, b);
    TrimAllConcat(Split(a), Split(b));
    RemoveEmptyConcat(TrimAll(Split(a)), TrimAll(Split(b)));
  }

  /** The empty string has no categories. */
  lemma EmptyInputIsEmpty()
    ensures ParseCategories("") == []
  {
    ParseEmptyIff("");
  }

  /** An absent field has no categories. */
  lemma AbsentFieldIsEmpty()
    ensures CategoriesOf(None) == []
  {
    EmptyInputIsEmpty();
  }

  /** Parsing the comma-join of a parse gives back the same categories. */
  lemma ParseJoinParse(raw: seq<char>)
    ensures ParseCategories(Join(ParseCategories(raw))) == ParseCategories(raw)
  {
    var r := ParseCategories(raw);
    if r == [] {
      assert Split([]) == [[]];
      assert TrimAll([[]]) == [[]];
      assert RemoveEmpty([[]]) == [];
    } else {
      SplitJoin(r);
      forall i | 0 <= i < |r| ensures Trim(r[i]) == r[i] {
        TrimTrimmed(r[i]);
      }
      TrimAllTrimmed(r);
      RemoveEmptyNone(r);
    }
  }

  /** The pieces of the first example. */
  lemma ExampleTrimAndDropSplit()
    ensures Split("A, B ,,C") == ["A", " B ", "", "C"]
  {
    assert "A, B ,,C" == "A" + [','] + " B ,,C";
    SplitAfterComma("A", " B ,,C");
    ExampleTrimAndDropSplitTail();
  }

  /** The pieces after the first comma of the first example. */
  lemma ExampleTrimAndDropSplitTail()
    ensures Split(" B ,,C") == [" B ", "", "C"]
  {
    assert " B ,,C" == " B " + [','] + ",C";
    assert ",C" == "" + [','] + "C";
    SplitAfterComma(" B ", ",C");
    SplitAfterComma("", "C");
    SplitNoComma("C");
  }

  /** Trimming drops the padding around a piece. */
  lemma ExampleTrimPadded()
    ensures Trim(" B ") == "B"
  {
    assert " B "[1..] == "B ";
    assert "B "[..1] == "B";
  }

  /** Trimming the pieces of the first example. */
  lemma ExampleTrimAndDropTrim()
    ensures TrimAll(["A", " B ", "", "C"]) == ["A", "B", "", "C"]
  {
    var xs: seq<seq<char>> := ["A", " B ", "", "C"];
    var ys: seq<seq<char>> := ["A", "B", "", "C"];
    ExampleTrimPadded();
    TrimTrimmed(xs[0]);
    TrimTrimmed(xs[2]);
    TrimTrimmed(xs[3]);
    assert forall i :: 0 <= i < 4 ==> TrimAll(xs)[i] == ys[i];
  }

  /** Dropping the empty piece of the first example. */
  lemma ExampleTrimAndDropFilter()
    ensures RemoveEmpty(["A", "B", "", "C"]) == ["A", "B", "C"]
  {
    var trimmed: seq<seq<char>> := ["A", "B", "", "C"];
    assert trimmed[1..][1..] == ["", "C"];
    assert RemoveEmpty(["", "C"]) == ["C"];
  }

  /** Pieces are trimmed and the empty one between two commas is dropped. */
  lemma ExampleTrimAndDrop()
    ensures ParseCategories("A, B ,,C") == ["A", "B", "C"]
  {
    ExampleTrimAndDropSplit();
    ExampleTrimAndDropTrim();
    ExampleTrimAndDropFilter();
    ParseStages("A, B ,,C", ["A", " B ", "", "C"], ["A", "B", "", "C"]);
  }

  /** The pieces of the second example. */
  lemma ExampleDuplicatesSplit()
    ensures Split("x,y,x") == ["x", "y", "x"]
  {
    assert "x,y,x" == "x" + [','] + "y,x";
    assert "y,x" == "y" + [','] + "x";
    SplitAfterComma("x", "y,x");
    SplitAfterComma("y", "x");
    SplitNoComma("x");
  }

  /** Trimming the pieces of the second example. */
  lemma ExampleDuplicatesTrim()
    ensures TrimAll(["x", "y", "x"]) == ["x", "y", "x"]
  {
    var xs: seq<seq<char>> := ["x", "y", "x"];
    TrimTrimmed(xs[0]);
    TrimTrimmed(xs[1]);
    TrimTrimmed(xs[2]);
    TrimAllTrimmed(xs);
  }

  /** No piece of the second example is empty. */
  lemma ExampleDuplicatesFilter()
    ensures RemoveEmpty(["x", "y", "x"]) == ["x", "y", "x"]
  {
    var xs: seq<seq<char>> := ["x", "y", "x"];
    assert xs[0] != [] && xs[1] != [] && xs[2] != [];
    RemoveEmptyNone(xs);
  }

  /** Duplicates are kept, in their places. */
  lemma ExampleDuplicatesKept()
    ensures ParseCategories("x,y,x") == ["x", "y", "x"]
  {
    ExampleDuplicatesSplit();
    ExampleDuplicatesTrim();
    ExampleDuplicatesFilter();
    ParseStages("x,y,x", ["x", "y", "x"], ["x", "y", "x"]);
  }
}
