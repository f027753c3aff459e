/**
 * Output filename derivation: `category_url.split('/')[-1]` placed into
 * `mobilesentrix_<segment>_<date>.json`, with the `YYYYMMDD` date stamp taken
 * as a parameter.
 */
module Naming {

  const Prefix: string := "mobilesentrix_"
  const Extension: string := ".json"

  /** Python's `s.split(sep)` with an explicit separator: the maximal pieces
      between separators, including empty ones, and always at least one.
      Defined character by character from the end: a separator opens a new,
      empty last piece; any other character extends the last piece. */
  function Split(s: string, sep: char): (parts: seq<string>)
    ensures |parts| >= 1
  {
    if s == [] then [[]]
    else
      var init := Split(s[..|s| - 1], sep);
      var c := s[|s| - 1];
      if c == sep then init + [[]]
      else init[..|init| - 1] + [init[|init| - 1] + [c]]
  }

  /** Python's `sep.join(parts)`. */
  function Join(parts: seq<string>, sep: char): string
    requires |parts| >= 1
  {
    if |parts| == 1 then parts[0]
    else Join(parts[..|parts| - 1], sep) + [sep] + parts[|parts| - 1]
  }

  /** The `split('/')[-1]` of a string: its last piece. */
  function LastPiece(s: string, sep: char): string
  {
    var parts := Split(s, sep);
    parts[|parts| - 1]
  }

  /** No piece of a split holds the separator. */
  lemma {:induction false} SplitPiecesFree(s: string, sep: char)
    ensures forall i :: 0 <= i < |Split(s, sep)| ==> sep !in Split(s, sep)[i]
  {
    if s != [] {
      var init := Split(s[..|s| - 1], sep);
      var c := s[|s| - 1];
      SplitPiecesFree(s[..|s| - 1], sep);
      if c != sep {
        var parts := Split(s, sep);
        forall i | 0 <= i < |parts| ensures sep !in parts[i] {
          if i < |init| - 1 {
            assert parts[i] == init[i];
          } else {
            assert parts[i] == init[|init| - 1] + [c];
          }
        }
      }
    }
  }

  /** Splitting a string extended by one character other than the
      separator extends the last piece by that character. */
  lemma SplitThenChar(h: string, c: char, sep: char)
    requires c != sep
    ensures var parts := Split(h, sep);
      Split(h + [c], sep) == parts[..|parts| - 1] + [parts[|parts| - 1] + [c]]
  {
    assert (h + [c])[..|h|] == h;
  }

  /** Splitting a string extended by a separator opens an empty last piece. */
  lemma SplitThenSep(h: string, sep: char)
    ensures Split(h + [sep], sep) == Split(h, sep) + [[]]
  {
    assert (h + [sep])[..|h|] == h;
  }

  /** Joining pieces whose last piece is extended by a character extends the
      join by that character. */
  lemma JoinExtendLast(parts: seq<string>, c: char, sep: char)
    requires |parts| >= 1
    ensures var k := |parts| - 1;
      Join(parts[..k] + [parts[k] + [c]], sep) == Join(parts, sep) + [c]
  {
    var k := |parts| - 1;
    var ext := parts[..k] + [parts[k] + [c]];
    if k > 0 {
      assert ext[..k] == parts[..k];
      assert Join(ext, sep) == Join(parts[..k], sep) + [sep] + (parts[k] + [c]);
    }
  }

  /** Extending a string by one character keeps the join of its split equal
      to the string. */
  lemma JoinSplitSnoc(h: string, c: char, sep: char)
    requires Join(Split(h, sep), sep) == h
    ensures Join(Split(h + [c], sep), sep) == h + [c]
  {
    var init := Split(h, sep);
    if c == sep {
      SplitThenSep(h, sep);
      var parts := init + [[]];
      assert parts[..|parts| - 1] == init;
      assert Join(parts, sep) == h + [sep] + [];
    } else {
      SplitThenChar(h, c, sep);
      JoinExtendLast(init, c, sep);
    }
  }

  /** Joining the pieces of a split gives back the original string. */
  lemma {:induction false} JoinSplit(s: string, sep: char)
    ensures Join(Split(s, sep), sep) == s
  {
    if s != [] {
      var front := s[..|s| - 1];
      assert front + [s[|s| - 1]] == s;
      JoinSplit(front, sep);
      JoinSplitSnoc(front, s[|s| - 1], sep);
    }
  }

  /** Splitting a string extended by a separator-free piece extends the last
      piece of the split by that piece. */
  lemma {:induction false} SplitThenPiece(h: string, p: string, sep: char)
    requires sep !in p
    ensures var parts := Split(h, sep);
      Split(h + p, sep) == parts[..|parts| - 1] + [parts[|parts| - 1] + p]
  {
    var parts := Split(h, sep);
    if p == [] {
      assert h + p == h;
      assert parts[|parts| - 1] + p == parts[|parts| - 1];
      assert parts[..|parts| - 1] + [parts[|parts| - 1]] == parts;
    } else {
      var q := p[..|p| - 1];
      var c := p[|p| - 1];
      assert q + [c] == p;
      assert h + p == (h + q) + [c];
      SplitThenPiece(h, q, sep);
      SplitThenChar(h + q, c, sep);
      var before := Split(h + q, sep);
      assert before[..|before| - 1] == parts[..|parts| - 1];
      assert before[|before| - 1] + [c] == parts[|parts| - 1] + p;
    }
  }

  /** Appending a separator-free piece to pieces that split back from their
      join keeps that property. */
  lemma SplitJoinSnoc(init: seq<string>, piece: string, sep: char)
    requires |init| >= 1 && sep !in piece
    requires Split(Join(init, sep), sep) == init
    ensures Split(Join(init + [piece], sep), sep) == init + [piece]
  {
    var none: string := [];
    var front := Join(init, sep) + [sep];
    assert (init + [piece])[..|init|] == init;
    assert Join(init + [piece], sep) == front + piece;
    SplitThenSep(Join(init, sep), sep);
    SplitThenPiece(front, piece, sep);
    assert (init + [none])[..|init|] == init;
    assert none + piece == piece;
  }

  /** Splitting the join of separator-free pieces gives back the pieces. */
  lemma {:induction false} SplitJoin(parts: seq<string>, sep: char)
    requires |parts| >= 1
    requires forall i :: 0 <= i < |parts| ==> sep !in parts[i]
    ensures Split(Join(parts, sep), sep) == parts
  {
    var k := |parts| - 1;
    if k == 0 {
      var none: string := [];
      SplitThenPiece(none, parts[0], sep);
      assert none + parts[0] == parts[0];
    } else {
      var init := parts[..k];
      assert init + [parts[k]] == parts;
      SplitJoin(init, sep);
      SplitJoinSnoc(init, parts[k], sep);
    }
  }

  /** How a character appended to a string decides its last piece: a
      separator opens an empty one, anything else extends the previous one. */
  lemma LastPieceSnoc(h: string, c: char, sep: char)
    ensures c == sep ==> LastPiece(h + [c], sep) == [] && |Split(h + [c], sep)| > 1
    ensures c != sep ==> LastPiece(h + [c], sep) == LastPiece(h, sep) + [c]
    ensures c != sep ==> |Split(h + [c], sep)| == |Split(h, sep)|
  {
    var parts, more := Split(h, sep), Split(h + [c], sep);
    if c == sep {
      SplitThenSep(h, sep);
      assert more[|more| - 1] == (parts + [[]])[|parts|];
    } else {
      SplitThenChar(h, c, sep);
      var k := |parts| - 1;
      assert |more| == |parts|;
      assert more[k] == (parts[..k] + [parts[k] + [c]])[k];
    }
  }

  /** The last piece of a split is a suffix of the string. */
  lemma {:induction false} LastPieceSuffix(s: string, sep: char)
    ensures |LastPiece(s, sep)| <= |s|
    ensures s[|s| - |LastPiece(s, sep)|..] == LastPiece(s, sep)
  {
    if s != [] {
      var front, c := s[..|s| - 1], s[|s| - 1];
      assert s == front + [c];
      LastPieceSuffix(front, sep);
      LastPieceSnoc(front, c, sep);
      if c != sep {
        var before := LastPiece(front, sep);
        assert s[|s| - |before| - 1..] == front[|front| - |before|..] + [c];
      }
    }
  }

  /** When a split has several pieces, a separator stands right before the
      last one. */
  lemma {:induction false} LastPieceAfterSep(s: string, sep: char)
    ensures |Split(s, sep)| > 1 ==> |LastPiece(s, sep)| < |s| && s[|s| - |LastPiece(s, sep)| - 1] == sep
  {
    if s != [] {
      var front, c := s[..|s| - 1], s[|s| - 1];
      assert s == front + [c];
      LastPieceAfterSep(front, sep);
      LastPieceSnoc(front, c, sep);
      if c != sep && |Split(front, sep)| > 1 {
        var before := LastPiece(front, sep);
        assert s[|s| - |before| - 2] == front[|front| - |before| - 1];
      }
    }
  }

  /** When a split has a single piece, that piece is the whole string. */
  lemma {:induction false} LastPieceWhole(s: string, sep: char)
    ensures |Split(s, sep)| == 1 ==> LastPiece(s, sep) == s
  {
    if s != [] {
      var front, c := s[..|s| - 1], s[|s| - 1];
      assert s == front + [c];
      LastPieceWhole(front, sep);
      LastPieceSnoc(front, c, sep);
    }
  }

  /** `split('/')[-1]`: the last '/'-separated segment of a category. */
  function CategoryName(url: string): string
  {
    LastPiece(url, '/')
  }

  /** The category segment is the text after the last '/': it holds no '/',
      ends the category string, and is preceded by a '/' unless it is the
      whole string; a category without '/' is its own segment. */
  lemma CategoryNameIsLastSegment(url: string)
    ensures '/' !in CategoryName(url)
    ensures |CategoryName(url)| <= |url|
    ensures url[|url| - |CategoryName(url)|..] == CategoryName(url)
    ensures |CategoryName(url)| < |url| ==> url[|url| - |CategoryName(url)| - 1] == '/'
    ensures '/' !in url ==> CategoryName(url) == url
  {
    LastPieceSuffix(url, '/');
    LastPieceAfterSep(url, '/');
    LastPieceWhole(url, '/');
    SplitPiecesFree(url, '/');
  }

  /** The part of every artifact name after the category segment. */
  function Stamp(date: string): string
  {
    "_" + date + Extension
  }

  /** The artifact name for a category on a date stamp. */
  function Filename(url: string, date: string): string
  {
    Prefix + CategoryName(url) + Stamp(date)
  }

  /** A category without '/' appears whole in its filename. */
  lemma FilenameOfPlainCategory(url: string, date: string)
    requires '/' !in url
    ensures Filename(url, date) == "mobilesentrix_" + url + "_" + date + ".json"
  {
    CategoryNameIsLastSegment(url);
    assert Prefix + url + Stamp(date) == "mobilesentrix_" + url + "_" + date + ".json";
  }

  /** The filename is prefix, segment, '_', date and extension, and on a
      given date two categories share a file exactly when their last segments
      agree, so a second run on the same date overwrites the same file. */
  lemma FilenameDeterminedBySegment(a: string, b: string, date: string)
    ensures Filename(a, date)[..|Prefix|] == Prefix
    ensures Filename(a, date)[|Prefix|..|Prefix| + |CategoryName(a)|] == CategoryName(a)
    ensures Filename(a, date)[|Prefix| + |CategoryName(a)|..] == "_" + date + ".json"
    ensures Filename(a, date) == Filename(b, date) <==> CategoryName(a) == CategoryName(b)
  {
    var x, y := CategoryName(a), CategoryName(b);
    var fa, fb := Filename(a, date), Filename(b, date);
    assert fa[..|Prefix|] == Prefix;
    assert fa[|Prefix|..|Prefix| + |x|] == x;
    assert fa[|Prefix| + |x|..] == Stamp(date);
    if fa == fb {
      assert |x| == |y|;
      assert fb[|Prefix|..|Prefix| + |y|] == y;
    }
  }
}
