/** The naming-convention and list helpers of util.py: pulling the SN, R and
    Run numbers out of file names, splitting on several separators, and
    grouping items by an attribute. */
module Util {
  import opened PyStr

  /** The characters `lstrip('SN')` / `strip('SN')` remove. */
  const SNChars: set<char> := {'S', 'N'}

  // ---------------------------------------------------------------------------
  // findSN

  /** `int(seg.lstrip('SN'))`, a ValueError escaping to the caller. */
  function SNValue(seg: string): (r: Result<Option<int>>)
    ensures r != Ok(None)
  {
    match ParseInt(LStrip(seg, SNChars))
    case Some(n) => Ok(Some(n))
    case None => Err(ValueError)
  }

  /** The segments `findSN` looks at: the name without its last four
      characters (the extension), split on `_`. */
  function SNSegments(filename: string): seq<string>
  {
    Split(Slice(filename, 0, -4), "_")
  }

  /** `segs[i]` is the first segment that contains `SN`. */
  predicate FirstSN(segs: seq<string>, i: int)
  {
    0 <= i < |segs| && Contains(segs[i], "SN")
    && forall j :: 0 <= j < i ==> !Contains(segs[j], "SN")
  }

  /** `findSN`: the number in the first segment containing `SN`, with the
      leading S/N characters stripped; None (the implicit return) when no
      segment contains `SN`. */
  method FindSN(filename: string) returns (r: Result<Option<int>>)
    ensures var segs := SNSegments(filename);
      r == Ok(None) <==> forall i :: 0 <= i < |segs| ==> !Contains(segs[i], "SN")
    ensures var segs := SNSegments(filename);
      r != Ok(None) ==> exists i :: FirstSN(segs, i) && r == SNValue(segs[i])
  {
    var segs := Split(Slice(filename, 0, -4), "_");
    assert segs == SNSegments(filename);
    var i := 0;
    while i < |segs|
      invariant 0 <= i <= |segs|
      invariant forall j :: 0 <= j < i ==> !Contains(segs[j], "SN")
    {
      if Contains(segs[i], "SN") {
        r := SNValue(segs[i]);
        assert FirstSN(segs, i);
        assert !(forall j :: 0 <= j < |segs| ==> !Contains(segs[j], "SN"));
        return;
      }
      i := i + 1;
    }
    r := Ok(None);
  }

  // ---------------------------------------------------------------------------
  // findSNs

  /** `filename[filename.rfind('/')+1 : filename.find('R')].split('_')[:-1]`:
      the pieces between the last `/` and the first `R`, without the final
      piece. When there is no `R` the slice ends one before the end, as the
      -1 returned by `find` makes it. */
  function SNPieces(filename: string): seq<string>
  {
    var base := Slice(filename, RFind(filename, "/") + 1, Find(filename, "R"));
    var pieces := Split(base, "_");
    pieces[..|pieces| - 1]
  }

  /** The filter of the comprehension: `SN.strip('SN').isdigit()`. */
  predicate Kept(piece: string)
  {
    IsDigits(Strip(piece, SNChars))
  }

  function KeptPieces(pieces: seq<string>): (r: seq<string>)
    ensures |r| <= |pieces|
  {
    if pieces == [] then []
    else
      var init := KeptPieces(pieces[..|pieces| - 1]);
      var last := pieces[|pieces| - 1];
      if Kept(last) then init + [last] else init
  }

  /** The filter keeps exactly the pieces that pass it. */
  lemma {:induction false} KeptPiecesKept(pieces: seq<string>)
    ensures forall k :: 0 <= k < |KeptPieces(pieces)| ==> Kept(KeptPieces(pieces)[k])
    ensures forall p :: p in KeptPieces(pieces) <==> p in pieces && Kept(p)
  {
    if pieces != [] {
      var init := pieces[..|pieces| - 1];
      KeptPiecesKept(init);
      var r := KeptPieces(pieces);
      var last := pieces[|pieces| - 1];
      if Kept(last) {
        assert r == KeptPieces(init) + [last];
      } else {
        assert r == KeptPieces(init);
      }
    }
  }

  /** `int(p.lstrip('SN'))` of one piece; None where `int` raises. */
  function LStripValue(piece: string): Option<int>
  {
    ParseInt(LStrip(piece, SNChars))
  }

  /** `[conv(x) for x in xs]` for a conversion that may raise ValueError
      (None here): the first item that fails to convert raises. */
  function ConvertAll<T>(xs: seq<T>, conv: T -> Option<int>): (r: Result<seq<int>>)
    ensures r.Err? ==> r.error == ValueError
  {
    if xs == [] then Ok([])
    else
      match ConvertAll(xs[..|xs| - 1], conv)
      case Err(e) => Err(e)
      case Ok(vs) =>
        match conv(xs[|xs| - 1])
        case None => Err(ValueError)
        case Some(v) => Ok(vs + [v])
  }

  /** The comprehension succeeds iff every item converts, and then holds the
      converted items in order. */
  lemma {:induction false} ConvertAllMeaning<T>(xs: seq<T>, conv: T -> Option<int>)
    ensures ConvertAll(xs, conv).Ok? <==> forall k :: 0 <= k < |xs| ==> conv(xs[k]).Some?
    ensures ConvertAll(xs, conv).Ok? ==> var vs := ConvertAll(xs, conv).value;
      |vs| == |xs| && forall k :: 0 <= k < |xs| ==> conv(xs[k]) == Some(vs[k])
    decreases |xs|
  {
    if xs != [] {
      var n := |xs| - 1;
      var init := xs[..n];
      ConvertAllMeaning(init, conv);
      assert forall k :: 0 <= k < n ==> init[k] == xs[k];
      if !ConvertAll(xs, conv).Ok? && conv(xs[n]).Some? {
        var k :| 0 <= k < n && conv(init[k]).None?;
      }
    }
  }

  /** `[int(p.lstrip('SN')) for p in pieces]`. */
  function LStripValues(pieces: seq<string>): (r: Result<seq<int>>)
    ensures r.Err? ==> r.error == ValueError
  {
    ConvertAll(pieces, LStripValue)
  }

  /** `findSNs` as written: it keeps the pieces whose two-sided strip is
      numeric but converts their left strip, so a piece with trailing S/N
      characters passes the filter and then raises. */
  function FindSNsAsWritten(filename: string): (r: Result<seq<int>>)
    ensures r.Err? ==> r.error == ValueError
  {
    LStripValues(KeptPieces(SNPieces(filename)))
  }

  /** The conversion of the kept pieces succeeds iff every piece's left
      strip is an integer, and then yields those integers in order. */
  lemma LStripValuesMeaning(pieces: seq<string>)
    ensures LStripValues(pieces).Ok? <==> forall k :: 0 <= k < |pieces| ==> LStripValue(pieces[k]).Some?
    ensures LStripValues(pieces).Ok? ==> var vs := LStripValues(pieces).value;
      |vs| == |pieces| && forall k :: 0 <= k < |pieces| ==> LStripValue(pieces[k]) == Some(vs[k])
  {
    ConvertAllMeaning(pieces, LStripValue);
  }

  /** The number a kept piece stands for. */
  function KeptValue(piece: string): nat
    requires Kept(piece)
  {
    DigitsValue(Strip(piece, SNChars))
  }

  function KeptValues(pieces: seq<string>): (r: seq<nat>)
    requires forall k :: 0 <= k < |pieces| ==> Kept(pieces[k])
    ensures |r| == |pieces|
    ensures forall k :: 0 <= k < |r| ==> r[k] == KeptValue(pieces[k])
  {
    seq(|pieces|, k requires 0 <= k < |pieces| => KeptValue(pieces[k]))
  }

  /** `findSNs` with the conversion stripping the same characters the filter
      strips: every kept piece yields its number and nothing raises. */
  function FindSNs(filename: string): (r: seq<nat>)
    ensures |r| == |KeptPieces(SNPieces(filename))|
  {
    KeptPiecesKept(SNPieces(filename));
    KeptValues(KeptPieces(SNPieces(filename)))
  }

  /** The corrected `findSNs` holds, for each field that passes the filter,
      `int` of that field with S and N stripped from both ends. */
  lemma FindSNsMeaning(filename: string)
    ensures var ps := KeptPieces(SNPieces(filename));
      |FindSNs(filename)| == |ps|
      && (forall p :: p in ps <==> p in SNPieces(filename) && Kept(p))
      && forall k :: 0 <= k < |ps| ==> ParseInt(Strip(ps[k], SNChars)) == Some(FindSNs(filename)[k] as int)
  {
    var ps := KeptPieces(SNPieces(filename));
    KeptPiecesKept(SNPieces(filename));
    forall k | 0 <= k < |ps|
      ensures ParseInt(Strip(ps[k], SNChars)) == Some(FindSNs(filename)[k] as int)
    {
      ParseIntDigits(Strip(ps[k], SNChars));
    }
  }

  /** `int()` refuses a text that starts with a digit and ends in S or N. */
  lemma DigitThenLetter(l: string)
    requires |l| > 0 && IsDigit(l[0]) && l[|l| - 1] in SNChars
    ensures ParseInt(l) == None
  {
    LStripNoop(l, Whitespace);
    RStripNoop(l, Whitespace);
    var t := Strip(l, Whitespace);
    assert t == l;
    assert t[0] != '-' && t[0] != '+' && !IsDigit(t[|t| - 1]);
  }

  /** A left-stripped piece whose right strip is numeric is an integer for
      `int()` only if it has nothing left to strip on the right. */
  lemma LStripParses(piece: string)
    requires Kept(piece)
    requires ParseInt(LStrip(piece, SNChars)).Some?
    ensures LStrip(piece, SNChars) == Strip(piece, SNChars)
    ensures ParseInt(LStrip(piece, SNChars)) == Some(KeptValue(piece))
  {
    var l := LStrip(piece, SNChars);
    var d := RStrip(l, SNChars);
    assert |d| > 0 && d == l[..|d|];
    assert IsDigit(l[0]) by {
      assert l[0] == d[0];
    }
    if |d| < |l| {
      DigitThenLetter(l);
    }
    assert l == d;
    ParseIntDigits(d);
  }

  /** Whenever the code as written returns, it returns what the corrected
      version returns. */
  lemma FindSNsAgrees(filename: string)
    ensures FindSNsAsWritten(filename).Ok? ==> FindSNsAsWritten(filename).value == FindSNs(filename)
  {
    var kept := KeptPieces(SNPieces(filename));
    KeptPiecesKept(SNPieces(filename));
    if LStripValues(kept).Ok? {
      LStripValuesAgree(kept);
    }
  }

  lemma {:induction false} LStripValuesAgree(pieces: seq<string>)
    requires forall k :: 0 <= k < |pieces| ==> Kept(pieces[k])
    requires LStripValues(pieces).Ok?
    ensures LStripValues(pieces) == Ok(KeptValues(pieces))
    decreases |pieces|
  {
    if pieces != [] {
      var init := pieces[..|pieces| - 1];
      var last := pieces[|pieces| - 1];
      KeptValuesSnoc(pieces);
      LStripValuesSnoc(pieces);
      LStripValuesAgree(init);
      LStripParses(last);
    }
  }

  /** The conversion of all pieces succeeds exactly when that of all but the
      last does and the last one converts; it then appends the last value. */
  lemma LStripValuesSnoc(pieces: seq<string>)
    requires pieces != []
    ensures var init := pieces[..|pieces| - 1];
      var v := LStripValue(pieces[|pieces| - 1]);
      (LStripValues(pieces).Ok? <==> LStripValues(init).Ok? && v.Some?)
      && (LStripValues(pieces).Ok? ==> LStripValues(pieces).value == LStripValues(init).value + [v.value])
  {
  }

  lemma KeptValuesSnoc(pieces: seq<string>)
    requires pieces != [] && forall k :: 0 <= k < |pieces| ==> Kept(pieces[k])
    ensures var init := pieces[..|pieces| - 1];
      (forall k :: 0 <= k < |init| ==> Kept(init[k]))
      && KeptValues(pieces) == KeptValues(init) + [KeptValue(pieces[|pieces| - 1])]
  {
    var init := pieces[..|pieces| - 1];
    var a := KeptValues(pieces);
    var b := KeptValues(init) + [KeptValue(pieces[|pieces| - 1])];
    forall k | 0 <= k < |a|
      ensures a[k] == b[k]
    {
      if k < |init| {
        assert init[k] == pieces[k];
      }
    }
  }

  lemma FindChar(s: string, c: char, i: nat)
    requires i < |s| && s[i] == c
    requires forall k :: 0 <= k < i ==> s[k] != c
    ensures Find(s, [c]) == i
  {
    OccursAtChar(s, c, i);
    forall k: nat | k < i
      ensures !OccursAt(s, [c], k)
    {
      OccursAtChar(s, c, k);
    }
  }

  lemma LacksChar(s: string, c: char)
    requires forall k :: 0 <= k < |s| ==> s[k] != c
    ensures Find(s, [c]) == -1 && RFind(s, [c]) == -1
  {
    forall k: nat
      ensures !OccursAt(s, [c], k)
    {
      OccursAtChar(s, c, k);
    }
  }

  /** A name made of one piece, `_` and a tail starting with `R` has that
      piece as its only SN piece. */
  lemma OnePiece(piece: string, tail: string)
    requires forall k :: 0 <= k < |piece| ==> piece[k] != 'R' && piece[k] != '/' && piece[k] != '_'
    requires tail != [] && tail[0] == 'R' && forall k :: 0 <= k < |tail| ==> tail[k] != '/'
    ensures SNPieces(piece + "_" + tail) == [piece]
  {
    var f := piece + "_" + tail;
    var n := |piece|;
    assert f[n] == '_' && f[n + 1] == 'R';
    FindChar(f, 'R', n + 1);
    LacksChar(f, '/');
    var base := piece + "_";
    assert Slice(f, 0, n + 1) == base;
    FindChar(base, '_', n);
    assert base[..n] == piece;
    assert base[n + 1..] == "";
    LacksChar("", '_');
    assert Split(base, "_") == [piece] + Split("", "_");
  }

  lemma TrailingLetterPieces()
    ensures SNPieces("SN12N_R3.fits") == ["SN12N"]
  {
    OnePiece("SN12N", "R3.fits");
    assert "SN12N" + "_" + "R3.fits" == "SN12N_R3.fits";
  }

  /** A leading character to strip goes. */
  lemma LStripOne(a: char, rest: string, cs: set<char>)
    requires a in cs
    ensures LStrip([a] + rest, cs) == LStrip(rest, cs)
  {
    assert ([a] + rest)[1..] == rest;
  }

  /** Two leading characters to strip, then one to keep. */
  lemma LStripTwo(a: char, b: char, rest: string, cs: set<char>)
    requires a in cs && b in cs && (rest == [] || rest[0] !in cs)
    ensures LStrip([a, b] + rest, cs) == rest
  {
    assert [a, b] + rest == [a] + ([b] + rest);
    LStripOne(a, [b] + rest, cs);
    LStripOne(b, rest, cs);
    LStripNoop(rest, cs);
  }

  lemma TrailingLetterLStrip()
    ensures LStrip("SN12N", SNChars) == "12N"
  {
    LStripTwo('S', 'N', "12N", SNChars);
    assert ['S', 'N'] + "12N" == "SN12N";
  }

  lemma TrailingLetterStrip()
    ensures LStrip("SN12N", SNChars) == "12N"
    ensures Strip("SN12N", SNChars) == "12"
  {
    TrailingLetterLStrip();
    var t := "12N";
    RStripNoop("12", SNChars);
    assert t[2] in SNChars && t[..2] == "12";
  }

  lemma TrailingLetterKept()
    ensures Kept("SN12N") && KeptPieces(["SN12N"]) == ["SN12N"]
  {
    TrailingLetterStrip();
    var pieces := ["SN12N"];
    assert pieces[..0] == [];
  }

  lemma TrailingLetterRaises()
    ensures LStripValues(["SN12N"]) == Err(ValueError)
  {
    TrailingLetterStrip();
    DigitThenLetter("12N");
    var pieces := ["SN12N"];
    assert pieces[..0] == [];
  }

  lemma TrailingLetterValue()
    ensures Kept("SN12N") && KeptValue("SN12N") == 12
  {
    TrailingLetterStrip();
    assert DigitsValue("12") == 12 by {
      assert "12"[..1] == "1";
      assert "1"[..0] == "";
    }
  }

  /** A name with a single kept piece. */
  lemma FindSNsSingle(filename: string, piece: string)
    requires SNPieces(filename) == [piece] && KeptPieces([piece]) == [piece] && Kept(piece)
    ensures FindSNsAsWritten(filename) == LStripValues([piece])
    ensures FindSNs(filename) == [KeptValue(piece)]
  {
    var r := FindSNs(filename);
    assert |r| == 1;
  }

  /** The discrepancy on a concrete name: `SN12N_R3.fits` passes the filter
      with `12` but `int('12N')` raises; the corrected version gives [12]. */
  lemma FindSNsTrailingLetter()
    ensures FindSNsAsWritten("SN12N_R3.fits") == Err(ValueError)
    ensures FindSNs("SN12N_R3.fits") == [12]
  {
    TrailingLetterPieces();
    TrailingLetterKept();
    TrailingLetterRaises();
    TrailingLetterValue();
    FindSNsSingle("SN12N_R3.fits", "SN12N");
  }

  // ---------------------------------------------------------------------------
  // findR (the text part) and findRun

  lemma OccursAtChar(s: string, c: char, i: int)
    ensures OccursAt(s, [c], i) <==> 0 <= i < |s| && s[i] == c
  {
    if 0 <= i < |s| {
      assert s[i..i + 1] == [s[i]];
    }
  }

  /** The text part of `findR`: `filename[filename.rfind('R')+1:-4]`, the
      characters between the last `R` and the four-character extension. */
  function FindRText(filename: string): (r: string)
    ensures forall k :: 0 <= k < |r| ==> r[k] != 'R'
    ensures r != [] ==> 4 + |r| <= |filename| && r == filename[|filename| - 4 - |r|..|filename| - 4]
    ensures r != [] ==> |filename| - 4 - |r| == 0 || filename[|filename| - 5 - |r|] == 'R'
    ensures r == [] <==> |filename| <= 4 || exists k :: 0 <= k < |filename| && |filename| - 5 <= k && filename[k] == 'R'
  {
    var ind := RFind(filename, "R");
    var r := Slice(filename, ind + 1, -4);
    assert forall k :: ind < k < |filename| ==> filename[k] != 'R' by {
      forall k | ind < k < |filename|
        ensures filename[k] != 'R'
      {
        OccursAtChar(filename, 'R', k);
      }
    }
    assert ind >= 0 ==> filename[ind] == 'R' by {
      OccursAtChar(filename, 'R', ind);
    }
    assert r != [] ==> 4 + |r| <= |filename| && r == filename[ind + 1..|filename| - 4];
    assert ind >= 0 && |filename| - 5 <= ind ==> filename[ind] == 'R';
    r
  }

  /** `filename[i+3:j]` is the field `findRun` reads: `Run` occurs at `i > 0`
      and nowhere later, and `j` is the first `_` after it or the end. */
  ghost predicate RunField(filename: string, i: int, j: int)
  {
    0 < i && i + 3 <= j <= |filename|
    && OccursAt(filename, "Run", i)
    && (forall k: nat :: i < k ==> !OccursAt(filename, "Run", k))
    && (forall k :: i + 3 <= k < j ==> filename[k] != '_')
    && (j == |filename| || filename[j] == '_')
  }

  /** The first piece of `s.split('_')` runs up to the first `_`. */
  lemma SplitFirstPiece(s: string)
    ensures var w := Split(s, "_")[0];
      |w| <= |s| && w == s[..|w|]
      && (forall k :: 0 <= k < |w| ==> s[k] != '_') && (|w| == |s| || s[|w|] == '_')
  {
    var i := Find(s, "_");
    if i < 0 {
      LacksCharFromFind(s, '_');
    } else {
      OccursAtChar(s, '_', i);
      forall k | 0 <= k < i
        ensures s[k] != '_'
      {
        OccursAtChar(s, '_', k);
      }
    }
  }

  lemma LacksCharFromFind(s: string, c: char)
    requires Find(s, [c]) == -1
    ensures forall k :: 0 <= k < |s| ==> s[k] != c
  {
    forall k | 0 <= k < |s|
      ensures s[k] != c
    {
      OccursAtChar(s, c, k);
    }
  }

  /** The field after the last `Run`, as `findRun` reads it. */
  function RunText(filename: string, ind: nat): string
    requires ind + 3 <= |filename|
  {
    Split(filename[ind + 3..], "_")[0]
  }

  /** When `Run` occurs last at `ind > 0`, the text `findRun` converts is
      the field `RunField` describes, and that field is the only one. */
  lemma RunFieldOf(filename: string, ind: int)
    requires ind == RFind(filename, "Run") && ind > 0
    ensures ind + 3 <= |filename|
    ensures var w := RunText(filename, ind);
      RunField(filename, ind, ind + 3 + |w|) && w == filename[ind + 3..ind + 3 + |w|]
  {
    var rest := filename[ind + 3..];
    SplitFirstPiece(rest);
    var w := RunText(filename, ind);
    assert forall k :: ind + 3 <= k < ind + 3 + |w| ==> filename[k] == rest[k - ind - 3];
  }

  lemma RunFieldUnique(filename: string, i: int, j: int)
    requires RunField(filename, i, j)
    ensures RFind(filename, "Run") == i
    ensures j == i + 3 + |RunText(filename, i)|
  {
    assert Contains(filename, "Run");
    RunFieldOf(filename, i);
  }

  /** Where `Run` last occurs after index 0, `findRun`'s field is the one
      `RunField` describes; otherwise there is no such field. */
  lemma RunFields(filename: string)
    ensures var ind := RFind(filename, "Run");
      ind > 0 ==> ind + 3 <= |filename| && RunField(filename, ind, ind + 3 + |RunText(filename, ind)|)
    ensures var ind := RFind(filename, "Run");
      forall i, j :: RunField(filename, i, j) ==> ind > 0 && i == ind && filename[i + 3..j] == RunText(filename, ind)
  {
    var ind := RFind(filename, "Run");
    if ind > 0 {
      RunFieldOf(filename, ind);
    }
    forall i, j | RunField(filename, i, j)
      ensures ind > 0 && i == ind && filename[i + 3..j] == RunText(filename, ind)
    {
      RunFieldUnique(filename, i, j);
      RunFieldOf(filename, i);
    }
  }

  /** `findRun`: the integer after the last `Run` up to the next `_`; None
      when `Run` is absent or only at index 0 (the test is `ind > 0`), and
      None when that text is not an integer. */
  function FindRun(filename: string): (r: Option<int>)
    ensures r.Some? ==> exists i, j :: RunField(filename, i, j) && ParseInt(filename[i + 3..j]) == r
    ensures (forall k: nat :: 0 < k ==> !OccursAt(filename, "Run", k)) ==> r == None
    ensures forall i, j :: RunField(filename, i, j) ==> r == ParseInt(filename[i + 3..j])
  {
    var ind := RFind(filename, "Run");
    RunFields(filename);
    if ind > 0 then
      RunFieldOf(filename, ind);
      ParseInt(RunText(filename, ind))
    else
      None
  }

  // ---------------------------------------------------------------------------
  // split

  /** `s.split(sep)` for every piece, concatenated in order. */
  function SplitEach(pieces: seq<string>, sep: string): seq<string>
    requires sep != []
  {
    if pieces == [] then []
    else SplitEach(pieces[..|pieces| - 1], sep) + Split(pieces[|pieces| - 1], sep)
  }

  predicate NonEmptySeps(seps: seq<string>)
  {
    forall k :: 0 <= k < |seps| ==> seps[k] != []
  }

  /** Splitting on each separator in turn. */
  function SplitSeps(s: string, seps: seq<string>): seq<string>
    requires NonEmptySeps(seps)
  {
    if seps == [] then [s]
    else SplitEach(SplitSeps(s, seps[..|seps| - 1]), seps[|seps| - 1])
  }

  lemma {:induction false} SplitEachPieces(pieces: seq<string>, sep: string, q: string)
    requires sep != []
    requires q in SplitEach(pieces, sep)
    ensures exists p :: p in pieces && q in Split(p, sep)
    decreases |pieces|
  {
    var init := pieces[..|pieces| - 1];
    var last := pieces[|pieces| - 1];
    if q in Split(last, sep) {
      assert last in pieces;
    } else {
      SplitEachPieces(init, sep, q);
      var p :| p in init && q in Split(p, sep);
      assert p in pieces;
    }
  }

  /** `split(s, seps)`: start from `[s]` and, for each separator, replace
      the list by the concatenation of its pieces' splits. */
  method SplitAll(s: string, seps: seq<string>) returns (res: seq<string>)
    requires NonEmptySeps(seps)
    ensures res == SplitSeps(s, seps)
    ensures seps == [] ==> res == [s]
    ensures forall p, k :: p in res && 0 <= k < |seps| ==> !Contains(p, seps[k])
    ensures |seps| == 1 ==> Join(seps[0], res) == s
  {
    res := [s];
    var i := 0;
    while i < |seps|
      invariant 0 <= i <= |seps|
      invariant res == SplitSeps(s, seps[..i])
      invariant forall p, k :: p in res && 0 <= k < i ==> !Contains(p, seps[k])
    {
      var sep := seps[i];
      var prev := res;
      res := [];
      var j := 0;
      while j < |prev|
        invariant 0 <= j <= |prev|
        invariant res == SplitEach(prev[..j], sep)
        invariant forall q, k :: q in res && 0 <= k <= i ==> !Contains(q, seps[k])
      {
        SplitPieces(prev[j], sep);
        assert prev[j] in prev;
        forall q, k | q in Split(prev[j], sep) && 0 <= k <= i
          ensures !Contains(q, seps[k])
        {
          if k < i && Contains(q, seps[k]) {
            ContainsTransitive(prev[j], q, seps[k]);
          }
        }
        assert prev[..j + 1][..j] == prev[..j];
        res := res + Split(prev[j], sep);
        j := j + 1;
      }
      assert prev[..j] == prev;
      assert seps[..i + 1][..i] == seps[..i];
      i := i + 1;
    }
    assert seps[..i] == seps;
    if |seps| == 1 {
      assert [s][..0] == [];
      assert seps[..0] == [];
      assert SplitSeps(s, seps) == SplitEach([s], seps[0]);
      assert res == Split(s, seps[0]);
      JoinSplit(s, seps[0]);
    }
  }

  // ---------------------------------------------------------------------------
  // iter_Attr

  /** The items whose attribute is `key`, in input order. */
  function Group<X>(items: seq<X>, attr: X -> int, key: int): (r: seq<X>)
    ensures |r| <= |items|
  {
    if items == [] then []
    else
      var last := items[|items| - 1];
      Group(items[..|items| - 1], attr, key) + (if attr(last) == key then [last] else [])
  }

  /** A group holds exactly the items with its attribute value. */
  lemma {:induction false} GroupMembers<X>(items: seq<X>, attr: X -> int, key: int, x: X)
    ensures x in Group(items, attr, key) <==> x in items && attr(x) == key
    decreases |items|
  {
    if items != [] {
      var init := items[..|items| - 1];
      GroupMembers(init, attr, key, x);
      assert items == init + [items[|items| - 1]];
    }
  }

  predicate Increasing(r: seq<int>)
  {
    forall i, j :: 0 <= i < j < |r| ==> r[i] < r[j]
  }

  /** Places `k` in an increasing list that does not hold it yet. */
  method Insert(r: seq<int>, k: int) returns (r2: seq<int>)
    requires Increasing(r) && k !in r
    ensures Increasing(r2)
    ensures forall y :: y in r2 <==> y in r || y == k
  {
    var i := 0;
    while i < |r| && r[i] < k
      invariant 0 <= i <= |r|
      invariant forall j :: 0 <= j < i ==> r[j] < k
    {
      i := i + 1;
    }
    assert i < |r| ==> r[i] != k;
    InsertAt(r, i, k);
    r2 := r[..i] + [k] + r[i..];
    assert forall y :: y in r <==> y in r[..i] || y in r[i..] by {
      assert r == r[..i] + r[i..];
    }
  }

  /** Placing `k` between the keys below it and the keys above it keeps the order. */
  lemma InsertAt(r: seq<int>, i: nat, k: int)
    requires Increasing(r) && i <= |r|
    requires forall j :: 0 <= j < i ==> r[j] < k
    requires i < |r| ==> k < r[i]
    ensures Increasing(r[..i] + [k] + r[i..])
  {
    var r2 := r[..i] + [k] + r[i..];
    forall a, b | 0 <= a < b < |r2|
      ensures r2[a] < r2[b]
    {
      assert r2[a] == if a < i then r[a] else if a == i then k else r[a - 1];
      assert r2[b] == if b < i then r[b] else if b == i then k else r[b - 1];
    }
  }

  /** `sorted(keys)` without repetitions (the keys of a dict are distinct). */
  method Sorted(keys: seq<int>) returns (r: seq<int>)
    ensures Increasing(r)
    ensures forall y :: y in r <==> y in keys
  {
    r := [];
    for i := 0 to |keys|
      invariant Increasing(r)
      invariant forall y :: y in r <==> y in keys[..i]
    {
      assert keys[..i + 1] == keys[..i] + [keys[i]];
      if keys[i] !in r {
        r := Insert(r, keys[i]);
      }
    }
    assert keys[..|keys|] == keys;
  }

  lemma GroupStep<X>(files: seq<X>, attr: X -> int, i: nat, key: int)
    requires i < |files|
    ensures Group(files[..i + 1], attr, key) == Group(files[..i], attr, key) + (if attr(files[i]) == key then [files[i]] else [])
  {
    assert files[..i + 1][..i] == files[..i];
  }

  lemma {:induction false} GroupEmpty<X>(items: seq<X>, attr: X -> int, key: int)
    requires forall j :: 0 <= j < |items| ==> attr(items[j]) != key
    ensures Group(items, attr, key) == []
    decreases |items|
  {
    if items != [] {
      GroupEmpty(items[..|items| - 1], attr, key);
    }
  }

  /** Every entry of `dic` is the non-empty group of its key in `items`. */
  ghost predicate Grouped<X>(dic: map<int, seq<X>>, items: seq<X>, attr: X -> int)
  {
    forall k :: k in dic ==> dic[k] == Group(items, attr, k) && dic[k] != []
  }

  /** Appending one more item to its group keeps the dictionary grouped. */
  lemma GroupedStep<X>(dic: map<int, seq<X>>, files: seq<X>, attr: X -> int, i: nat)
    requires i < |files| && Grouped(dic, files[..i], attr)
    requires forall j :: 0 <= j < i ==> attr(files[j]) in dic
    ensures var a := attr(files[i]);
      Grouped(dic[a := if a in dic then dic[a] + [files[i]] else [files[i]]], files[..i + 1], attr)
  {
    var a := attr(files[i]);
    forall k | k in dic
      ensures Group(files[..i + 1], attr, k) == dic[k] + (if a == k then [files[i]] else [])
    {
      GroupStep(files, attr, i, k);
    }
    if a !in dic {
      GroupEmpty(files[..i], attr, a);
      GroupStep(files, attr, i, a);
    }
  }

  /** The `(key, dic[key])` pairs over the sorted keys of a grouped dictionary
      that covers every item satisfy the contract of `IterAttr`. */
  lemma GroupsCover<X>(files: seq<X>, attr: X -> int, dic: map<int, seq<X>>, keys: seq<int>, groups: seq<(int, seq<X>)>)
    requires Grouped(dic, files, attr)
    requires forall y :: y in keys <==> y in dic
    requires forall x :: x in files ==> attr(x) in dic
    requires |groups| == |keys|
    requires forall k :: 0 <= k < |keys| ==> keys[k] in dic && groups[k] == (keys[k], dic[keys[k]])
    ensures forall i :: 0 <= i < |groups| ==> groups[i].1 == Group(files, attr, groups[i].0) && groups[i].1 != []
    ensures forall x :: x in files ==> exists i :: 0 <= i < |groups| && groups[i].0 == attr(x)
    ensures forall i, x :: 0 <= i < |groups| && x in files ==> (x in groups[i].1 <==> attr(x) == groups[i].0)
  {
    forall x | x in files
      ensures exists k :: 0 <= k < |groups| && groups[k].0 == attr(x)
    {
      var v := attr(x);
      assert v in keys;
      var k :| 0 <= k < |keys| && keys[k] == v;
      assert groups[k].0 == v;
    }
    forall i, x | 0 <= i < |groups| && x in files
      ensures x in groups[i].1 <==> attr(x) == groups[i].0
    {
      GroupMembers(files, attr, groups[i].0, x);
    }
  }

  /** The loop of `iter_Attr`: `dic` maps each attribute value met to its
      group, and `seen` lists the keys of `dic` in the order they were added. */
  method GroupBy<X>(files: seq<X>, attr: X -> int) returns (dic: map<int, seq<X>>, seen: seq<int>)
    ensures forall k :: k in dic <==> k in seen
    ensures Grouped(dic, files, attr)
    ensures forall x :: x in files ==> attr(x) in dic
  {
    dic := map[];
    seen := [];
    for i := 0 to |files|
      invariant forall k :: k in dic <==> k in seen
      invariant Grouped(dic, files[..i], attr)
      invariant forall j :: 0 <= j < i ==> attr(files[j]) in dic
    {
      var a := attr(files[i]);
      GroupedStep(dic, files, attr, i);
      if a !in dic {
        seen := seen + [a];
      }
      ghost var before := dic;
      dic := dic[a := if a in dic then dic[a] + [files[i]] else [files[i]]];
      assert dic.Keys == before.Keys + {a};
      assert forall j :: 0 <= j < i + 1 ==> attr(files[j]) in dic by {
        forall j | 0 <= j < i + 1
          ensures attr(files[j]) in dic
        {
          if j < i {
            assert attr(files[j]) in before;
          }
        }
      }
    }
    assert files[..|files|] == files;
    forall x | x in files
      ensures attr(x) in dic
    {
      var j :| 0 <= j < |files| && files[j] == x;
    }
  }

  /** `iter_Attr(files, attr)`: the `(key, group)` pairs in ascending key
      order; each group holds, in input order, exactly the items with that
      attribute value, and every item's value is a key. */
  method IterAttr<X>(files: seq<X>, attr: X -> int) returns (groups: seq<(int, seq<X>)>)
    ensures forall i, j :: 0 <= i < j < |groups| ==> groups[i].0 < groups[j].0
    ensures forall i :: 0 <= i < |groups| ==> groups[i].1 == Group(files, attr, groups[i].0) && groups[i].1 != []
    ensures forall x :: x in files ==> exists i :: 0 <= i < |groups| && groups[i].0 == attr(x)
    ensures forall i, x :: 0 <= i < |groups| && x in files ==> (x in groups[i].1 <==> attr(x) == groups[i].0)
  {
    var dic, seen := GroupBy(files, attr);
    var keys := Sorted(seen);
    forall k | 0 <= k < |keys|
      ensures keys[k] in dic
    {
      assert keys[k] in keys;
    }
    groups := seq(|keys|, k requires 0 <= k < |keys| => (keys[k], dic[keys[k]]));
    GroupsCover(files, attr, dic, keys, groups);
  }
}
