/** Turning one row's industries and buzzwords cells into its list of tags:
    split on commas, strip each piece, drop the empty ones, industries first. */
module Tags {
  import opened Wrappers

  const Comma: char := ','

  /** The characters Python's `str.strip()` removes (those for which `str.isspace()` holds). */
  predicate IsSpace(c: char) {
    || c == ' '
    || ('\t' <= c <= '\r')
    || ('\U{1c}' <= c <= '\U{1f}')
    || c == '\U{85}' || c == '\U{a0}' || c == '\U{1680}'
    || ('\U{2000}' <= c <= '\U{200a}')
    || c == '\U{2028}' || c == '\U{2029}' || c == '\U{202f}' || c == '\U{205f}' || c == '\U{3000}'
  }

  predicate Blank(s: string) {
    forall i :: 0 <= i < |s| ==> IsSpace(s[i])
  }

  // ---------------------------------------------------------------- splitting

  /** Python's `s.split(sep)`: the maximal separator-free pieces between separators;
      there is always at least one piece, and adjacent separators give an empty one. */
  function Split(s: string, sep: char): (r: seq<string>)
    ensures |r| >= 1
    decreases |s|
  {
    if s == [] then [[]]
    else
      var rest := Split(s[1..], sep);
      if s[0] == sep then [[]] + rest
      else [[s[0]] + rest[0]] + rest[1..]
  }

  /** No piece contains the separator. */
  lemma {:induction false} SplitPiecesFree(s: string, sep: char)
    ensures forall i :: 0 <= i < |Split(s, sep)| ==> sep !in Split(s, sep)[i]
    decreases |s|
  {
    if s != [] {
      SplitPiecesFree(s[1..], sep);
    }
  }

  /** Python's `sep.join(ps)`. */
  function Join(ps: seq<string>, sep: char): string
    decreases |ps|
  {
    if |ps| == 0 then []
    else if |ps| == 1 then ps[0]
    else ps[0] + [sep] + Join(ps[1..], sep)
  }

  /** Joining the pieces back with the separator gives the original string. */
  lemma {:induction false} JoinSplit(s: string, sep: char)
    ensures Join(Split(s, sep), sep) == s
    decreases |s|
  {
    if s != [] {
      var rest := Split(s[1..], sep);
      JoinSplit(s[1..], sep);
      if s[0] == sep {
        assert Split(s, sep) == [[]] + rest;
        assert ([[]] + rest)[1..] == rest;
      } else {
        var r := Split(s, sep);
        assert r == [[s[0]] + rest[0]] + rest[1..];
        if |rest| == 1 {
          assert r == [[s[0]] + rest[0]];
        } else {
          assert r[1..] == rest[1..];
          assert Join(rest, sep) == rest[0] + [sep] + Join(rest[1..], sep);
          assert Join(r, sep) == [s[0]] + rest[0] + [sep] + Join(rest[1..], sep);
        }
      }
    }
  }

  lemma {:induction false} SplitFree(p: string, sep: char)
    requires sep !in p
    ensures Split(p, sep) == [p]
    decreases |p|
  {
    if p != [] {
      SplitFree(p[1..], sep);
      assert [p[0]] + p[1..] == p;
    }
  }

  lemma {:induction false} SplitCons(p: string, rest: string, sep: char)
    requires sep !in p
    ensures Split(p + [sep] + rest, sep) == [p] + Split(rest, sep)
    decreases |p|
  {
    var s := p + [sep] + rest;
    if p == [] {
      assert s[1..] == rest;
    } else {
      assert s[1..] == p[1..] + [sep] + rest;
      SplitCons(p[1..], rest, sep);
      assert [p[0]] + p[1..] == p;
    }
  }

  /** Conversely, splitting a join of separator-free pieces gives back those pieces,
      so `Split` is the one decomposition of a string into separator-free pieces. */
  lemma {:induction false} SplitJoin(ps: seq<string>, sep: char)
    requires |ps| >= 1
    requires forall i :: 0 <= i < |ps| ==> sep !in ps[i]
    ensures Split(Join(ps, sep), sep) == ps
    decreases |ps|
  {
    if |ps| == 1 {
      SplitFree(ps[0], sep);
    } else {
      SplitJoin(ps[1..], sep);
      SplitCons(ps[0], Join(ps[1..], sep), sep);
      assert [ps[0]] + ps[1..] == ps;
    }
  }

  // ---------------------------------------------------------------- stripping

  /** Python's `s.lstrip()`. */
  function TrimStart(s: string): (r: string)
    ensures |r| <= |s|
    decreases |s|
  {
    if s != [] && IsSpace(s[0]) then TrimStart(s[1..]) else s
  }

  /** Python's `s.rstrip()`. */
  function TrimEnd(s: string): (r: string)
    ensures |r| <= |s|
    decreases |s|
  {
    if s != [] && IsSpace(s[|s| - 1]) then TrimEnd(s[..|s| - 1]) else s
  }

  /** Python's `s.strip()`. */
  function Strip(s: string): string {
    TrimEnd(TrimStart(s))
  }

  /** `lstrip` removes a whitespace prefix and leaves a suffix that does not start with whitespace. */
  lemma {:induction false} TrimStartSpec(s: string)
    ensures var r := TrimStart(s);
      && r == s[|s| - |r|..]
      && (forall i :: 0 <= i < |s| - |r| ==> IsSpace(s[i]))
      && (r != [] ==> !IsSpace(r[0]))
    decreases |s|
  {
    if s != [] && IsSpace(s[0]) {
      TrimStartSpec(s[1..]);
    }
  }

  /** `rstrip` removes a whitespace suffix and leaves a prefix that does not end with whitespace. */
  lemma {:induction false} TrimEndSpec(s: string)
    ensures var r := TrimEnd(s);
      && r == s[..|r|]
      && (forall i :: |r| <= i < |s| ==> IsSpace(s[i]))
      && (r != [] ==> !IsSpace(r[|r| - 1]))
    decreases |s|
  {
    if s != [] && IsSpace(s[|s| - 1]) {
      TrimEndSpec(s[..|s| - 1]);
    }
  }

  /** How many whitespace characters `Strip` removes from the front of `s`. */
  function Indent(s: string): (k: nat)
    ensures k <= |s|
  {
    |s| - |TrimStart(s)|
  }

  /** `strip` keeps the slice of `s` left after removing whitespace at both ends: what it
      removes is all whitespace, and what it keeps neither starts nor ends with whitespace. */
  lemma StripSpec(s: string)
    ensures var r := Strip(s);
      && Indent(s) + |r| <= |s| && r == s[Indent(s)..Indent(s) + |r|]
      && (forall i :: 0 <= i < Indent(s) ==> IsSpace(s[i]))
      && (forall i :: Indent(s) + |r| <= i < |s| ==> IsSpace(s[i]))
      && (r != [] ==> !IsSpace(r[0]) && !IsSpace(r[|r| - 1]))
  {
    var t := TrimStart(s);
    TrimStartSpec(s);
    TrimEndSpec(t);
    SliceOfSuffix(s, Indent(s), |Strip(s)|);
  }

  lemma SliceOfSuffix(s: string, k: nat, n: nat)
    requires k + n <= |s|
    ensures s[k..][..n] == s[k..k + n]
  {
  }

  /** A piece strips to nothing exactly when it is all whitespace. */
  lemma StripEmpty(s: string)
    ensures Strip(s) == [] <==> Blank(s)
  {
    StripSpec(s);
  }

  /** Stripping twice is stripping once. */
  lemma StripIdempotent(s: string)
    ensures Strip(Strip(s)) == Strip(s)
  {
    StripSpec(s);
    StripSpec(Strip(s));
  }

  // ---------------------------------------------------------------- one row

  /** The pieces of one cell: a missing (NaN) cell has none. */
  function Pieces(cell: Option<string>): seq<string> {
    if cell.None? then [] else Split(cell.value, Comma)
  }

  /** A tag: non-empty, with no whitespace at either end. */
  predicate IsTag(t: string) {
    t != [] && !IsSpace(t[0]) && !IsSpace(t[|t| - 1])
  }

  /** The list comprehension `[p.strip() for p in pieces if p.strip()]`. */
  function Tidy(pieces: seq<string>): (r: seq<string>)
    ensures |r| <= |pieces|
    decreases |pieces|
  {
    if pieces == [] then []
    else
      var t := Strip(pieces[0]);
      if t != [] then [t] + Tidy(pieces[1..]) else Tidy(pieces[1..])
  }

  /** Every element of the filtered list is a proper tag. */
  lemma {:induction false} TidyTags(pieces: seq<string>)
    ensures forall i :: 0 <= i < |Tidy(pieces)| ==> IsTag(Tidy(pieces)[i])
    decreases |pieces|
  {
    if pieces != [] {
      TidyTags(pieces[1..]);
      StripSpec(pieces[0]);
    }
  }

  /** A row's combined tag list: the pieces of both cells, industries first. */
  function RowTags(industries: Option<string>, buzzwords: Option<string>): (r: seq<string>)
    ensures forall i :: 0 <= i < |r| ==> IsTag(r[i])
  {
    TidyTags(Pieces(industries) + Pieces(buzzwords));
    Tidy(Pieces(industries) + Pieces(buzzwords))
  }

  lemma {:induction false} TidyAppend(a: seq<string>, b: seq<string>)
    ensures Tidy(a + b) == Tidy(a) + Tidy(b)
    decreases |a|
  {
    if a != [] {
      assert (a + b)[1..] == a[1..] + b;
      TidyAppend(a[1..], b);
    } else {
      assert a + b == b;
    }
  }

  /** Filtering after the concatenation is filtering each cell's pieces: the industries
      tags come first, then the buzzwords tags, and a missing cell adds nothing. */
  lemma RowTagsOrder(industries: Option<string>, buzzwords: Option<string>)
    ensures RowTags(industries, buzzwords) == Tidy(Pieces(industries)) + Tidy(Pieces(buzzwords))
    ensures industries.None? ==> RowTags(industries, buzzwords) == Tidy(Pieces(buzzwords))
    ensures buzzwords.None? ==> RowTags(industries, buzzwords) == Tidy(Pieces(industries))
  {
    TidyAppend(Pieces(industries), Pieces(buzzwords));
  }

  /** Every tag is one of the stripped pieces, and every piece that is not blank yields its tag. */
  lemma {:induction false} TidyMembers(pieces: seq<string>, t: string)
    ensures t in Tidy(pieces) <==> t != [] && exists p :: p in pieces && Strip(p) == t
    decreases |pieces|
  {
    if pieces != [] {
      TidyMembers(pieces[1..], t);
      if Strip(pieces[0]) == t && t != [] {
        assert t in Tidy(pieces);
      }
      if t in Tidy(pieces) && !(exists p :: p in pieces[1..] && Strip(p) == t) {
        assert Strip(pieces[0]) == t;
      }
      assert forall p :: p in pieces[1..] ==> p in pieces;
      assert forall p :: p in pieces ==> p == pieces[0] || p in pieces[1..];
    }
  }

  // ---------------------------------------------------------------- rows without tags

  /** A cell with nothing but commas and whitespace in it (or no cell at all). */
  predicate NoText(cell: Option<string>) {
    cell.None? || forall i :: 0 <= i < |cell.value| ==> cell.value[i] == Comma || IsSpace(cell.value[i])
  }

  /** Every character of a piece is a character of the split string. */
  lemma {:induction false} SplitChars(s: string, sep: char)
    ensures forall i, j :: 0 <= i < |Split(s, sep)| && 0 <= j < |Split(s, sep)[i]| ==> Split(s, sep)[i][j] in s
    decreases |s|
  {
    if s != [] {
      SplitChars(s[1..], sep);
      var rest := Split(s[1..], sep);
      forall i, j | 0 <= i < |Split(s, sep)| && 0 <= j < |Split(s, sep)[i]|
        ensures Split(s, sep)[i][j] in s
      {
        var r := Split(s, sep);
        if s[0] == sep {
          if i > 0 { assert r[i] == rest[i - 1]; assert rest[i - 1][j] in s[1..]; }
        } else if i == 0 {
          if j > 0 { assert r[0][j] == rest[0][j - 1]; assert rest[0][j - 1] in s[1..]; }
        } else {
          assert r[i] == rest[i];
          assert rest[i][j] in s[1..];
        }
      }
    }
  }

  /** Dropping the pieces that strip to nothing leaves nothing when every piece is blank. */
  lemma {:induction false} TidyBlank(pieces: seq<string>)
    requires forall i :: 0 <= i < |pieces| ==> Blank(pieces[i])
    ensures Tidy(pieces) == []
    decreases |pieces|
  {
    if pieces != [] {
      StripEmpty(pieces[0]);
      TidyBlank(pieces[1..]);
    }
  }

  lemma NoTextPiecesBlank(cell: Option<string>)
    requires NoText(cell)
    ensures forall i :: 0 <= i < |Pieces(cell)| ==> Blank(Pieces(cell)[i])
  {
    if cell.Some? {
      var ps := Split(cell.value, Comma);
      SplitChars(cell.value, Comma);
      SplitPiecesFree(cell.value, Comma);
      forall i, j | 0 <= i < |ps| && 0 <= j < |ps[i]|
        ensures IsSpace(ps[i][j])
      {
        assert ps[i][j] in cell.value && ps[i][j] != Comma;
      }
    }
  }

  /** A row whose cells are missing, empty, or only commas and whitespace has no tags. */
  lemma NoTagsFromEmptyCells(industries: Option<string>, buzzwords: Option<string>)
    requires NoText(industries) && NoText(buzzwords)
    ensures RowTags(industries, buzzwords) == []
  {
    RowTagsOrder(industries, buzzwords);
    NoTextPiecesBlank(industries);
    NoTextPiecesBlank(buzzwords);
    TidyBlank(Pieces(industries));
    TidyBlank(Pieces(buzzwords));
  }
}
