/** Python string, list-slice and int built-ins that the helpers rely on, with
    the semantics of CPython on byte strings (Python 2 `str`) holding ASCII
    text: negative slice bounds,
    `str.find`/`rfind` returning -1, `str.split(sep)`, whitespace
    `str.split()` (the six ASCII whitespace characters), the `strip` family
    with a character set, `int()` on text, `str.isdigit` and the
    `%Ni`/`%0Ni`/`%Ns` conversions. */
module PyStr {

  datatype Option<+T> = None | Some(value: T)

  /** The exceptions the modelled code can raise. */
  datatype PyError = IndexError | ValueError

  datatype Result<+T> = Ok(value: T) | Err(error: PyError)

  // ---------------------------------------------------------------------------
  // Slicing

  /** Normalises one slice bound the way `s[a:b]` does: negative bounds count
      from the end, then the bound is clipped to `0..n`. */
  function Clamp(i: int, n: nat): (r: nat)
    ensures r <= n
    ensures 0 <= i <= n ==> r == i
    ensures i < 0 && 0 <= i + n ==> r == i + n
    ensures n < i ==> r == n
    ensures i + n < 0 ==> r == 0
  {
    if i < 0 then (if i + n < 0 then 0 else i + n)
    else if i > n then n
    else i
  }

  /** `s[a:b]`, which never fails. */
  function Slice<T>(s: seq<T>, a: int, b: int): (r: seq<T>)
    ensures |r| <= |s|
  {
    var lo := Clamp(a, |s|);
    var hi := Clamp(b, |s|);
    if lo <= hi then s[lo..hi] else []
  }

  // ---------------------------------------------------------------------------
  // Substrings

  predicate OccursAt(s: string, sub: string, i: int)
  {
    0 <= i && i + |sub| <= |s| && s[i..i + |sub|] == sub
  }

  /** `sub in s`. */
  predicate Contains(s: string, sub: string)
  {
    exists i :: 0 <= i <= |s| && OccursAt(s, sub, i)
  }

  /** Least occurrence of `sub` at or after `i`, or -1. */
  function FindFrom(s: string, sub: string, i: nat): (r: int)
    ensures r == -1 || (i <= r && OccursAt(s, sub, r))
    ensures r == -1 ==> forall k: nat :: i <= k ==> !OccursAt(s, sub, k)
    ensures r >= 0 ==> forall k: nat :: i <= k < r ==> !OccursAt(s, sub, k)
    decreases |s| + 1 - i
  {
    if |s| < i then -1
    else if OccursAt(s, sub, i) then i
    else FindFrom(s, sub, i + 1)
  }

  /** `s.find(sub)`. */
  function Find(s: string, sub: string): (r: int)
    ensures r == -1 <==> !Contains(s, sub)
    ensures r >= 0 ==> OccursAt(s, sub, r) && forall k: nat :: k < r ==> !OccursAt(s, sub, k)
  {
    FindFrom(s, sub, 0)
  }

  /** Greatest occurrence of `sub` strictly below `k`, or -1. */
  function RFindBelow(s: string, sub: string, k: nat): (r: int)
    ensures -1 <= r < k
    ensures r == -1 ==> forall i: nat :: i < k ==> !OccursAt(s, sub, i)
    ensures r >= 0 ==> OccursAt(s, sub, r) && forall i: nat :: r < i < k ==> !OccursAt(s, sub, i)
  {
    if k == 0 then -1
    else if OccursAt(s, sub, k - 1) then k - 1
    else RFindBelow(s, sub, k - 1)
  }

  /** `s.rfind(sub)`. */
  function RFind(s: string, sub: string): (r: int)
    ensures r == -1 <==> !Contains(s, sub)
    ensures r >= 0 ==> OccursAt(s, sub, r) && forall i: nat :: r < i ==> !OccursAt(s, sub, i)
  {
    RFindBelow(s, sub, |s| + 1)
  }

  lemma ContainsTransitive(a: string, b: string, c: string)
    requires Contains(a, b) && Contains(b, c)
    ensures Contains(a, c)
  {
    var i :| 0 <= i <= |a| && OccursAt(a, b, i);
    var j :| 0 <= j <= |b| && OccursAt(b, c, j);
    assert i + |b| <= |a| && a[i..i + |b|] == b;
    assert j + |c| <= |b| && b[j..j + |c|] == c;
    forall k | 0 <= k < |c|
      ensures a[i + j + k] == c[k]
    {
      assert c[k] == b[j + k] == a[i + j + k];
    }
    assert a[i + j..i + j + |c|] == c;
    assert OccursAt(a, c, i + j);
  }

  lemma ContainsSelf(s: string)
    ensures Contains(s, s)
  {
    assert OccursAt(s, s, 0);
  }

  /** A prefix `s[..i]` holds no occurrence that `s` does not hold below `i`. */
  lemma NoOccurrenceInPrefix(s: string, sub: string, i: nat)
    requires sub != [] && i <= |s|
    requires forall k: nat :: k < i ==> !OccursAt(s, sub, k)
    ensures !Contains(s[..i], sub)
  {
    forall k | 0 <= k <= i
      ensures !OccursAt(s[..i], sub, k)
    {
      if k + |sub| <= i {
        assert !OccursAt(s, sub, k);
        assert s[..i][k..k + |sub|] == s[k..k + |sub|];
      }
    }
  }

  // ---------------------------------------------------------------------------
  // str.split(sep) and its inverse str.join

  /** `s.split(sep)` for a non-empty separator (an empty one raises in Python). */
  function Split(s: string, sep: string): (r: seq<string>)
    requires sep != []
    ensures |r| >= 1
    decreases |s|
  {
    var i := Find(s, sep);
    if i < 0 then [s] else [s[..i]] + Split(s[i + |sep|..], sep)
  }

  /** `sep.join(pieces)`. */
  function Join(sep: string, pieces: seq<string>): string
  {
    if pieces == [] then []
    else if |pieces| == 1 then pieces[0]
    else pieces[0] + sep + Join(sep, pieces[1..])
  }

  lemma {:induction false} JoinSplit(s: string, sep: string)
    requires sep != []
    ensures Join(sep, Split(s, sep)) == s
    decreases |s|
  {
    var i := Find(s, sep);
    if i >= 0 {
      var head, rest := s[..i], s[i + |sep|..];
      var tail := Split(rest, sep);
      JoinSplit(rest, sep);
      var pieces := [head] + tail;
      assert Split(s, sep) == pieces;
      assert pieces[0] == head && pieces[1..] == tail;
      assert Join(sep, pieces) == head + sep + Join(sep, tail);
      assert s[i..i + |sep|] == sep;
      assert s == head + s[i..i + |sep|] + rest;
    }
  }

  /** Every piece of `s.split(sep)` is a substring of `s` and holds no `sep`. */
  lemma {:induction false} SplitPieces(s: string, sep: string)
    requires sep != []
    ensures forall p :: p in Split(s, sep) ==> !Contains(p, sep) && Contains(s, p)
    decreases |s|
  {
    var i := Find(s, sep);
    if i < 0 {
      ContainsSelf(s);
    } else {
      var rest := s[i + |sep|..];
      var tail := Split(rest, sep);
      assert Split(s, sep) == [s[..i]] + tail;
      SplitPieces(rest, sep);
      forall p | p in Split(s, sep)
        ensures !Contains(p, sep) && Contains(s, p)
      {
        if p in tail {
          assert OccursAt(s, rest, i + |sep|);
          ContainsTransitive(s, rest, p);
        } else {
          NoOccurrenceInPrefix(s, sep, i);
          assert OccursAt(s, s[..i], 0);
        }
      }
    }
  }

  // ---------------------------------------------------------------------------
  // str.split() on whitespace

  predicate IsSpace(c: char)
  {
    c == ' ' || c == '\t' || c == '\n' || c == '\r' || c == '\U{B}' || c == '\U{C}'
  }

  predicate NoSpace(w: string)
  {
    forall k :: 0 <= k < |w| ==> !IsSpace(w[k])
  }

  /** The first index at or after `i` that holds whitespace, or `|s|`. */
  function WordEnd(s: string, i: nat): (k: nat)
    requires i <= |s|
    ensures i <= k <= |s|
    ensures forall j :: i <= j < k ==> !IsSpace(s[j])
    ensures k == |s| || IsSpace(s[k])
    decreases |s| - i
  {
    if i == |s| || IsSpace(s[i]) then i else WordEnd(s, i + 1)
  }

  /** `s.split()`: the maximal runs of non-whitespace characters. */
  function Words(s: string): (r: seq<string>)
    ensures forall k :: 0 <= k < |r| ==> r[k] != [] && NoSpace(r[k])
    decreases |s|
  {
    if s == [] then []
    else if IsSpace(s[0]) then Words(s[1..])
    else
      var k := WordEnd(s, 0);
      [s[..k]] + Words(s[k..])
  }

  /** `line.split()[k]`, raising IndexError when the line has too few fields. */
  function Field(line: string, k: nat): (r: Result<string>)
    ensures r.Ok? <==> k < |Words(line)|
  {
    var w := Words(line);
    if k < |w| then Ok(w[k]) else Err(IndexError)
  }

  /** `lines[k]`, raising IndexError past the end. */
  function Item<T>(lines: seq<T>, k: nat): (r: Result<T>)
    ensures r.Ok? <==> k < |lines|
    ensures r.Ok? ==> r.value == lines[k]
  {
    if k < |lines| then Ok(lines[k]) else Err(IndexError)
  }

  /** `split()` skips leading whitespace. */
  lemma {:induction false} WordsSkipsSpaces(pad: string, rest: string)
    requires forall k :: 0 <= k < |pad| ==> IsSpace(pad[k])
    ensures Words(pad + rest) == Words(rest)
    decreases |pad|
  {
    if pad != [] {
      assert (pad + rest)[0] == pad[0];
      assert (pad + rest)[1..] == pad[1..] + rest;
      assert Words(pad + rest) == Words(pad[1..] + rest);
      WordsSkipsSpaces(pad[1..], rest);
    } else {
      assert pad + rest == rest;
    }
  }

  /** A maximal run of non-whitespace at the start is the first field. */
  lemma WordsTakesWord(w: string, rest: string)
    requires w != [] && NoSpace(w)
    requires rest == [] || IsSpace(rest[0])
    ensures Words(w + rest) == [w] + Words(rest)
  {
    var s := w + rest;
    var k := WordEnd(s, 0);
    assert forall j :: 0 <= j < |w| ==> s[j] == w[j];
    assert |w| == |s| || s[|w|] == rest[0];
    assert k == |w|;
    assert s[..k] == w;
    assert s[k..] == rest;
  }

  /** A word followed by a run of whitespace is the first field. */
  lemma WordsStep(w: string, sp: string, rest: string)
    requires w != [] && NoSpace(w)
    requires sp != [] && forall k :: 0 <= k < |sp| ==> IsSpace(sp[k])
    ensures Words(w + sp + rest) == [w] + Words(rest)
  {
    assert w + sp + rest == w + (sp + rest);
    WordsTakesWord(w, sp + rest);
    WordsSkipsSpaces(sp, rest);
  }

  // ---------------------------------------------------------------------------
  // strip family with an explicit character set

  /** Every character of `w` is in `cs`. */
  predicate AllIn(w: string, cs: set<char>)
  {
    forall k :: 0 <= k < |w| ==> w[k] in cs
  }

  /** `s.lstrip(cs)`: what it removes is a prefix of characters from `cs`. */
  function LStrip(s: string, cs: set<char>): (r: string)
    ensures |r| <= |s| && r == s[|s| - |r|..]
    ensures r == [] || r[0] !in cs
    ensures AllIn(s[..|s| - |r|], cs)
    decreases |s|
  {
    if s != [] && s[0] in cs then LStrip(s[1..], cs) else s
  }

  /** `s.rstrip(cs)`. */
  function RStrip(s: string, cs: set<char>): (r: string)
    ensures |r| <= |s| && r == s[..|r|]
    ensures r == [] || r[|r| - 1] !in cs
    ensures forall k :: |r| <= k < |s| ==> s[k] in cs
    decreases |s|
  {
    if s != [] && s[|s| - 1] in cs then RStrip(s[..|s| - 1], cs) else s
  }

  /** `s.strip(cs)`. */
  function Strip(s: string, cs: set<char>): string
  {
    RStrip(LStrip(s, cs), cs)
  }

  lemma LStripNoop(s: string, cs: set<char>)
    requires s == [] || s[0] !in cs
    ensures LStrip(s, cs) == s
  {
  }

  lemma RStripNoop(s: string, cs: set<char>)
    requires s == [] || s[|s| - 1] !in cs
    ensures RStrip(s, cs) == s
  {
  }

  // ---------------------------------------------------------------------------
  // Digits and int()

  predicate IsDigit(c: char)
  {
    '0' <= c <= '9'
  }

  /** `s.isdigit()` on a byte string: non-empty and all ASCII digits. */
  predicate IsDigits(s: string)
  {
    |s| > 0 && forall k :: 0 <= k < |s| ==> IsDigit(s[k])
  }

  function DigitValue(c: char): (d: nat)
    requires IsDigit(c)
    ensures d < 10
  {
    c as int - '0' as int
  }

  function DigitsValue(s: string): nat
    requires forall k :: 0 <= k < |s| ==> IsDigit(s[k])
  {
    if s == [] then 0
    else DigitsValue(s[..|s| - 1]) * 10 + DigitValue(s[|s| - 1])
  }

  const Whitespace: set<char> := {' ', '\t', '\n', '\r', '\U{B}', '\U{C}'}

  /** `int(s)` for a string: surrounding whitespace, an optional sign and
      at least one decimal digit; anything else raises ValueError (None here). */
  function ParseInt(s: string): (r: Option<int>)
  {
    var t := Strip(s, Whitespace);
    if |t| > 0 && (t[0] == '-' || t[0] == '+') then
      if IsDigits(t[1..]) then
        Some(if t[0] == '-' then -(DigitsValue(t[1..]) as int) else DigitsValue(t[1..]))
      else None
    else if IsDigits(t) then Some(DigitsValue(t))
    else None
  }

  /** `int(s)` inside a `try` whose handler rethrows: ValueError is an error. */
  function IntOf(s: string): (r: Result<int>)
    ensures r.Ok? <==> ParseInt(s).Some?
  {
    match ParseInt(s)
    case Some(n) => Ok(n)
    case None => Err(ValueError)
  }

  lemma ParseIntDigits(s: string)
    requires IsDigits(s)
    ensures ParseInt(s) == Some(DigitsValue(s))
  {
    assert !IsDigit(' ');
    LStripNoop(s, Whitespace);
    RStripNoop(s, Whitespace);
  }

  function DigitChar(d: nat): (c: char)
    requires d < 10
    ensures IsDigit(c) && DigitValue(c) == d
  {
    ('0' as int + d) as char
  }

  /** `str(n)` for a non-negative integer. */
  function NatToStr(n: nat): (r: string)
    ensures IsDigits(r)
    ensures DigitsValue(r) == n
  {
    if n < 10 then [DigitChar(n)]
    else
      var r := NatToStr(n / 10) + [DigitChar(n % 10)];
      assert r[..|r| - 1] == NatToStr(n / 10);
      r
  }

  /** `str(n)` / `'%i' % n`. */
  function IntToStr(n: int): (r: string)
    ensures r != [] && NoSpace(r)
  {
    if n < 0 then "-" + NatToStr(-n) else NatToStr(n)
  }

  /** Reading a formatted integer back with `int()` gives the integer. */
  lemma {:induction false} ParseIntToStr(n: int)
    ensures ParseInt(IntToStr(n)) == Some(n)
  {
    var s := IntToStr(n);
    assert s[0] != ' ' && s[0] != '\t' && s[0] != '\n' && s[0] != '\r';
    LStripNoop(s, Whitespace);
    assert IsDigit(s[|s| - 1]);
    RStripNoop(s, Whitespace);
    if n < 0 {
      assert s[1..] == NatToStr(-n);
    }
  }

  /** Right-justifies `s` in a field of `width` characters filled with `fill`
      (`'%6s'`, `'%2i'`, `'%02i'`); never truncates. */
  function PadLeft(s: string, width: nat, fill: char): (r: string)
    ensures |r| == if |s| < width then width else |s|
    ensures r[|r| - |s|..] == s
    ensures forall k :: 0 <= k < |r| - |s| ==> r[k] == fill
  {
    if |s| < width then seq(width - |s|, _ => fill) + s else s
  }

  /** Concatenation of a list of strings (`''.join(lines)`). */
  function Concat(lines: seq<string>): string
  {
    if lines == [] then [] else Concat(lines[..|lines| - 1]) + lines[|lines| - 1]
  }

  lemma {:induction false} ConcatPrefix(lines: seq<string>, k: nat)
    requires k <= |lines|
    ensures Concat(lines[..k]) <= Concat(lines)
    decreases |lines|
  {
    if k < |lines| {
      var init := lines[..|lines| - 1];
      assert init[..k] == lines[..k];
      ConcatPrefix(init, k);
    } else {
      assert lines[..k] == lines;
    }
  }
}
