/** The helpers ctop_cpu.py uses to pick its node list and to scrape the
    text `top -b` prints on each node, as lists of lines. */
module Ctop {
  import opened PyStr

  /** Number of header lines in top's output (`nhead`). */
  const NHead := 5

  /** The text that starts each of top's screens. */
  const Header := "top - "

  // ---------------------------------------------------------------------------
  // Cluster tables

  /** `'node%02i' % n`: zero-padded to two digits; a negative number keeps
      its sign and needs no padding. */
  function NodeName(n: int): string
  {
    "node" + (if n < 0 then IntToStr(n) else PadLeft(NatToStr(n), 2, '0'))
  }

  /** A node name is `node` followed by at least two characters, and for a
      number below 100 by its two decimal digits. */
  lemma NodeNameShape(n: int)
    ensures 0 <= n < 100 ==> NodeName(n) == "node" + [DigitChar(n / 10), DigitChar(n % 10)]
    ensures |NodeName(n)| >= 6 && NodeName(n)[..4] == "node"
  {
    TwoDigits(n);
  }

  lemma TwoDigits(n: int)
    ensures 0 <= n < 100 ==> PadLeft(NatToStr(n), 2, '0') == [DigitChar(n / 10), DigitChar(n % 10)]
    ensures n < 0 ==> |IntToStr(n)| >= 2
  {
    if 0 <= n < 10 {
      assert NatToStr(n) == [DigitChar(n % 10)];
    } else if 10 <= n < 100 {
      assert NatToStr(n / 10) == [DigitChar(n / 10)];
    }
  }

  /** Two-digit node names are distinct for distinct numbers. */
  lemma NodeNameInjective(m: int, n: int)
    requires 0 <= m < 100 && 0 <= n < 100
    requires NodeName(m) == NodeName(n)
    ensures m == n
  {
    NodeNameShape(m);
    NodeNameShape(n);
    assert NodeName(m)[4] == DigitChar(m / 10) && NodeName(n)[4] == DigitChar(n / 10);
    assert NodeName(m)[5] == DigitChar(m % 10) && NodeName(n)[5] == DigitChar(n % 10);
    assert DigitValue(DigitChar(m / 10)) == m / 10;
    assert DigitValue(DigitChar(n / 10)) == n / 10;
  }

  /** `['node%02i' % n for n in range(lo, hi)]`. */
  function NodeRange(lo: int, hi: int): (r: seq<string>)
    ensures |r| == if lo < hi then hi - lo else 0
    ensures forall k :: 0 <= k < |r| ==> r[k] == NodeName(lo + k)
  {
    if hi <= lo then [] else seq(hi - lo, k => NodeName(lo + k))
  }

  /** The entries of the `cluster` table: four research groups and all. */
  datatype Group = Lazarian | Zweibel | Townsend | Heinzs | All

  function GroupName(g: Group): string
  {
    match g
    case Lazarian => "lazarian"
    case Zweibel => "zweibel"
    case Townsend => "townsend"
    case Heinzs => "heinzs"
    case All => "all"
  }

  /** The node numbers of a group, `range(lo, hi)`. */
  function Bounds(g: Group): (r: (int, int))
    ensures 1 <= r.0 < r.1 <= 73
  {
    match g
    case Lazarian => (1, 16)
    case Zweibel => (17, 24)
    case Townsend => (25, 48)
    case Heinzs => (49, 73)
    case All => (1, 73)
  }

  function Nodes(g: Group): seq<string>
  {
    NodeRange(Bounds(g).0, Bounds(g).1)
  }

  /** The group a `cluster` key names, if any. */
  function GroupNamed(name: string): (r: Option<Group>)
    ensures r.Some? ==> GroupName(r.value) == name
    ensures r.None? ==> forall g :: GroupName(g) != name
  {
    if name == "lazarian" then Some(Lazarian)
    else if name == "zweibel" then Some(Zweibel)
    else if name == "townsend" then Some(Townsend)
    else if name == "heinzs" then Some(Heinzs)
    else if name == "all" then Some(All)
    else None
  }

  /** `cluster[name]`, None for a KeyError. */
  function Cluster(name: string): (r: Option<seq<string>>)
    ensures r.None? <==> forall g :: GroupName(g) != name
    ensures r.Some? ==> exists g :: GroupName(g) == name && r.value == Nodes(g)
  {
    match GroupNamed(name)
    case Some(g) => Some(Nodes(g))
    case None => None
  }

  /** The cluster used when none is named (`default_cluster`). */
  const DefaultCluster := "heinzs"

  lemma InRange(lo: int, hi: int, x: string) returns (n: int)
    requires x in NodeRange(lo, hi)
    ensures lo <= n < hi && x == NodeName(n)
  {
    var r := NodeRange(lo, hi);
    var k :| 0 <= k < |r| && r[k] == x;
    n := lo + k;
  }

  lemma RangeHolds(lo: int, hi: int, n: int)
    requires lo <= n < hi
    ensures NodeName(n) in NodeRange(lo, hi)
  {
    assert NodeRange(lo, hi)[n - lo] == NodeName(n);
  }

  /** The groups hold 15, 7, 23, 24 and 72 nodes. */
  lemma ClusterSizes()
    ensures |Nodes(Lazarian)| == 15 && |Nodes(Zweibel)| == 7 && |Nodes(Townsend)| == 23
    ensures |Nodes(Heinzs)| == 24 && |Nodes(All)| == 72
  {
  }

  lemma RangeEnds(lo: int, hi: int)
    requires lo < hi
    ensures |NodeRange(lo, hi)| == hi - lo
    ensures NodeRange(lo, hi)[0] == NodeName(lo)
    ensures NodeRange(lo, hi)[hi - lo - 1] == NodeName(hi - 1)
  {
  }

  /** Each group runs from the node numbered by its lower bound to the node
      before its upper bound, one node per number. */
  lemma ClusterEnds(g: Group)
    ensures |Nodes(g)| == Bounds(g).1 - Bounds(g).0
    ensures Nodes(g)[0] == NodeName(Bounds(g).0)
    ensures Nodes(g)[|Nodes(g)| - 1] == NodeName(Bounds(g).1 - 1)
  {
    var b := Bounds(g);
    RangeEnds(b.0, b.1);
  }

  lemma RangeNoRepeats(lo: int, hi: int, i: int, j: int)
    requires 0 <= lo < hi <= 100 && 0 <= i < j < hi - lo
    ensures NodeRange(lo, hi)[i] != NodeRange(lo, hi)[j]
  {
    if NodeName(lo + i) == NodeName(lo + j) {
      NodeNameInjective(lo + i, lo + j);
    }
  }

  /** No group lists a node twice. */
  lemma ClusterNoRepeats(g: Group, i: int, j: int)
    requires 0 <= i < j < |Nodes(g)|
    ensures Nodes(g)[i] != Nodes(g)[j]
  {
    var b := Bounds(g);
    RangeNoRepeats(b.0, b.1, i, j);
  }

  /** Every node of every group is in `all`. */
  lemma ClusterInAll(g: Group, x: string)
    requires x in Nodes(g)
    ensures x in Nodes(All)
  {
    var b := Bounds(g);
    var n := InRange(b.0, b.1, x);
    RangeHolds(1, 73, n);
  }

  /** The four research groups share no node. */
  lemma ClustersDisjoint(g: Group, h: Group, x: string)
    requires g != h && g != All && h != All
    requires x in Nodes(g)
    ensures x !in Nodes(h)
  {
    var bg := Bounds(g);
    var bh := Bounds(h);
    var m := InRange(bg.0, bg.1, x);
    if x in Nodes(h) {
      var n := InRange(bh.0, bh.1, x);
      NodeNameInjective(m, n);
    }
  }

  /** Each group's name finds that group, and no other name finds one. */
  lemma ClusterTable(g: Group)
    ensures Cluster(GroupName(g)) == Some(Nodes(g))
    ensures GroupNamed(DefaultCluster) == Some(Heinzs)
  {
    var name := GroupName(g);
    assert name[0] == 'l' ==> g == Lazarian;
    assert name[0] == 'z' ==> g == Zweibel;
  }

  // ---------------------------------------------------------------------------
  // remove_dup and read_host

  /** The index of the first occurrence of `x`. */
  function FirstIndex<T(==)>(s: seq<T>, x: T): (i: nat)
    requires x in s
    ensures i < |s| && s[i] == x
    ensures forall k :: 0 <= k < i ==> s[k] != x
  {
    if s[0] == x then 0 else 1 + FirstIndex(s[1..], x)
  }

  /** `r` is `items` without repeats, in order of first occurrence. */
  ghost predicate Deduplicated<T(!new)>(items: seq<T>, r: seq<T>)
  {
    (forall i, j :: 0 <= i < j < |r| ==> r[i] != r[j])
    && (forall x :: x in r <==> x in items)
    && (forall i, j :: 0 <= i < j < |r| ==> r[i] in items && r[j] in items && FirstIndex(items, r[i]) < FirstIndex(items, r[j]))
  }

  /** `r` is the deduplication of the first `i` items. */
  ghost predicate DeduplicatedUpTo<T(!new)>(items: seq<T>, r: seq<T>, i: nat)
    requires i <= |items|
  {
    (forall a, b :: 0 <= a < b < |r| ==> r[a] != r[b])
    && (forall x :: x in r <==> x in items[..i])
    && (forall a :: 0 <= a < |r| ==> r[a] in items && FirstIndex(items, r[a]) < i)
    && (forall a, b :: 0 <= a < b < |r| ==> r[a] in items && r[b] in items && FirstIndex(items, r[a]) < FirstIndex(items, r[b]))
  }

  /** An item already kept adds nothing. */
  lemma DedupSkip<T(!new)>(items: seq<T>, r: seq<T>, i: nat)
    requires i < |items| && DeduplicatedUpTo(items, r, i) && items[i] in r
    ensures DeduplicatedUpTo(items, r, i + 1)
  {
    assert items[..i + 1] == items[..i] + [items[i]];
  }

  /** An item not kept yet is its own first occurrence and goes last. */
  lemma DedupKeep<T(!new)>(items: seq<T>, r: seq<T>, i: nat)
    requires i < |items| && DeduplicatedUpTo(items, r, i) && items[i] !in r
    ensures DeduplicatedUpTo(items, r + [items[i]], i + 1)
  {
    var item := items[i];
    assert items[..i + 1] == items[..i] + [item];
    assert item !in items[..i];
    assert FirstIndex(items, item) == i;
    var r' := r + [item];
    assert forall a :: 0 <= a < |r| ==> r'[a] == r[a];
  }

  /** `remove_dup(list)`. */
  method RemoveDup<T(==, !new)>(items: seq<T>) returns (r: seq<T>)
    ensures Deduplicated(items, r)
  {
    r := [];
    for i := 0 to |items|
      invariant DeduplicatedUpTo(items, r, i)
    {
      if items[i] in r {
        DedupSkip(items, r, i);
      } else {
        DedupKeep(items, r, i);
        r := r + [items[i]];
      }
    }
    assert items[..|items|] == items;
  }

  /** `[l[:6] for l in lines]`: the node name at the start of each line. */
  function Heads(lines: seq<string>): (r: seq<string>)
    ensures |r| == |lines|
    ensures forall k :: 0 <= k < |r| ==> r[k] <= lines[k] && |r[k]| == if |lines[k]| < 6 then |lines[k]| else 6
  {
    if lines == [] then [] else Heads(lines[..|lines| - 1]) + [Slice(lines[|lines| - 1], 0, 6)]
  }

  /** `read_host(argv)`. A cluster name gives its table. Otherwise the file
      named `argv` is read: `hostfile` holds its lines, or is None when it
      cannot be opened; its lines' first six characters, without repeats,
      are the nodes. Otherwise `int(argv)` gives one node name, and any
      other text is itself taken as the node name. */
  method ReadHost(argv: string, hostfile: Option<seq<string>>) returns (nodes: seq<string>)
    ensures Cluster(argv).Some? ==> nodes == Cluster(argv).value
    ensures Cluster(argv).None? && hostfile.Some? ==> Deduplicated(Heads(hostfile.value), nodes)
    ensures Cluster(argv).None? && hostfile.None? && ParseInt(argv).Some? ==> nodes == [NodeName(ParseInt(argv).value)]
    ensures Cluster(argv).None? && hostfile.None? && ParseInt(argv).None? ==> nodes == [argv]
  {
    if Cluster(argv).Some? {
      return Cluster(argv).value;
    }
    match hostfile
    case Some(lines) =>
      var heads := [];
      for i := 0 to |lines|
        invariant heads == Heads(lines[..i])
      {
        assert lines[..i + 1][..i] == lines[..i];
        heads := heads + [Slice(lines[i], 0, 6)];
      }
      assert lines[..|lines|] == lines;
      nodes := RemoveDup(heads);
    case None =>
      match ParseInt(argv)
      case Some(n) => nodes := [NodeName(n)];
      case None => nodes := [argv];
  }

  // ---------------------------------------------------------------------------
  // cut_last and trim_top

  /** `lines[i]` holds a header and no later line does. */
  ghost predicate LastHeader(lines: seq<string>, i: int)
  {
    0 <= i < |lines| && Contains(lines[i], Header)
    && forall j :: i < j < |lines| ==> !Contains(lines[j], Header)
  }

  /** `cut_last(lines)`: the lines from the last one holding `top - `, or
      all of them when none does (top prints two screens; the last one
      has the reliable CPU figures). */
  method CutLast(lines: seq<string>) returns (r: seq<string>)
    ensures forall i :: LastHeader(lines, i) ==> r == lines[i..]
    ensures (forall k :: 0 <= k < |lines| ==> !Contains(lines[k], Header)) ==> r == lines
  {
    var init := 0;
    for j := 0 to |lines|
      invariant 0 <= init <= j || (init == 0 && j == 0)
      invariant (forall k :: 0 <= k < j ==> !Contains(lines[k], Header)) ==> init == 0
      invariant (exists k :: 0 <= k < j && Contains(lines[k], Header)) ==>
        init < j && Contains(lines[init], Header) && forall k :: init < k < j ==> !Contains(lines[k], Header)
    {
      if Contains(lines[j], Header) {
        init := j;
      }
    }
    r := lines[init..];
    forall i | LastHeader(lines, i)
      ensures r == lines[i..]
    {
      assert init == i;
    }
  }

  /** `trim_top(lines, ntasks)`: the header, the column titles and the
      first `ntasks` process lines, joined. */
  method TrimTop(lines: seq<string>, ntasks: int) returns (out: string)
    ensures out == Concat(Slice(lines, 0, NHead + 2 + ntasks))
    ensures 0 <= NHead + 2 + ntasks <= |lines| ==> out == Concat(lines[..NHead + 2 + ntasks])
    ensures |lines| <= NHead + 2 + ntasks ==> out == Concat(lines)
    ensures out <= Concat(lines)
  {
    var taken := Slice(lines, 0, NHead + 2 + ntasks);
    out := "";
    for i := 0 to |taken|
      invariant out == Concat(taken[..i])
    {
      assert taken[..i + 1][..i] == taken[..i];
      out := out + taken[i];
    }
    assert taken[..|taken|] == taken;
    assert taken == lines[..|taken|];
    ConcatPrefix(lines, |taken|);
    assert lines[..|lines|] == lines;
  }

  // ---------------------------------------------------------------------------
  // Field extraction

  /** `int(lines[1].split()[3])`: the count in top's `Tasks:` line of the
      processes in state R. */
  function RunningCount(lines: seq<string>): (r: Result<int>)
    ensures r.Ok? <==> |lines| > 1 && |Words(lines[1])| > 3 && ParseInt(Words(lines[1])[3]).Some?
    ensures r.Ok? ==> Some(r.value) == ParseInt(Words(lines[1])[3])
    ensures r.Err? ==> (r.error == IndexError <==> |lines| <= 1 || |Words(lines[1])| <= 3)
  {
    match Item(lines, 1)
    case Err(e) => Err(e)
    case Ok(line) =>
      match Field(line, 3)
      case Err(e) => Err(e)
      case Ok(w) => IntOf(w)
  }

  predicate AllSpace(sp: string)
  {
    forall k :: 0 <= k < |sp| ==> IsSpace(sp[k])
  }

  /** Three words separated by whitespace read back as those words. */
  lemma {:induction false} ThreeWords(a: string, sp1: string, b: string, sp2: string, c: string)
    requires a != [] && NoSpace(a) && b != [] && NoSpace(b) && c != [] && NoSpace(c)
    requires sp1 != [] && AllSpace(sp1) && sp2 != [] && AllSpace(sp2)
    ensures Words(a + sp1 + b + sp2 + c) == [a, b, c]
  {
    assert a + sp1 + b + sp2 + c == a + sp1 + (b + sp2 + c);
    WordsStep(a, sp1, b + sp2 + c);
    WordsStep(b, sp2, c);
    assert c + [] == c;
    WordsTakesWord(c, []);
  }

  /** A padded field keeps its text at the end, after spaces only. */
  lemma PadSplit(s: string, width: nat) returns (pad: string)
    ensures PadLeft(s, width, ' ') == pad + s && AllSpace(pad)
  {
    var p := PadLeft(s, width, ' ');
    pad := p[..|p| - |s|];
    assert p == pad + s;
  }

  /** A space in front of spaces leaves only spaces. */
  lemma SpaceBefore(pad: string)
    requires AllSpace(pad)
    ensures AllSpace(" " + pad)
  {
  }

  /** A padded middle field cut at its padding. */
  lemma PaddedRegroup(a: string, p: string, pad: string, num: string, c: string)
    requires p == pad + num
    ensures a + " " + p + " " + c == a + (" " + pad) + num + " " + c
  {
  }

  /** `'<a> %2i <c>' % m` reads back as three words. */
  lemma PaddedWords(a: string, m: int, c: string)
    requires a != [] && NoSpace(a) && c != [] && NoSpace(c)
    ensures Words(a + " " + PadLeft(IntToStr(m), 2, ' ') + " " + c) == [a, IntToStr(m), c]
  {
    var num := IntToStr(m);
    var pad := PadSplit(num, 2);
    SpaceBefore(pad);
    assert AllSpace(" ");
    ThreeWords(a, " " + pad, num, " ", c);
    PaddedRegroup(a, PadLeft(num, 2, ' '), pad, num, c);
  }

  /** The literal parts of the task line, split at their spaces. */
  lemma TasksRegroup(p: string)
    ensures "Tasks: " + p + " running" == "Tasks:" + " " + p + " " + "running"
  {
    assert "Tasks: " == "Tasks:" + " ";
    assert " running" == " " + "running";
  }

  lemma TasksWords(m: int)
    ensures Words("Tasks: " + PadLeft(IntToStr(m), 2, ' ') + " running") == ["Tasks:", IntToStr(m), "running"]
  {
    assert NoSpace("Tasks:") && NoSpace("running");
    PaddedWords("Tasks:", m, "running");
    TasksRegroup(PadLeft(IntToStr(m), 2, ' '));
  }

  /** `'Tasks: %2i running' % m`. */
  function TasksText(m: int): string
  {
    "Tasks: " + PadLeft(IntToStr(m), 2, ' ') + " running"
  }

  /** The task line reads back as three fields, the middle one `m`. */
  lemma TasksLine(m: int)
    ensures var w := Words(TasksText(m));
      |w| == 3 && w[0] == "Tasks:" && w[2] == "running" && ParseInt(w[1]) == Some(m)
  {
    TasksWords(m);
    ParseIntToStr(m);
  }

  /** `get_n_tasks(lines)`: `'Tasks: %2i running'` of the running count
      less one, for top itself. The text reads back as three fields, the
      middle one being that number. */
  function GetNTasks(lines: seq<string>): (r: Result<string>)
    ensures r.Err? <==> RunningCount(lines).Err?
    ensures r.Err? ==> r.error == RunningCount(lines).error
    ensures r.Ok? ==> var w := Words(r.value);
      |w| == 3 && w[0] == "Tasks:" && w[2] == "running" && ParseInt(w[1]) == Some(RunningCount(lines).value - 1)
  {
    match RunningCount(lines)
    case Err(e) => Err(e)
    case Ok(n) =>
      TasksLine(n - 1);
      Ok(TasksText(n - 1))
  }

  /** Four words separated by whitespace read back as those words. */
  lemma {:induction false} FourWords(a: string, sp1: string, b: string, sp2: string, c: string, sp3: string, d: string)
    requires a != [] && NoSpace(a) && b != [] && NoSpace(b) && c != [] && NoSpace(c) && d != [] && NoSpace(d)
    requires sp1 != [] && AllSpace(sp1) && sp2 != [] && AllSpace(sp2) && sp3 != [] && AllSpace(sp3)
    ensures Words(a + sp1 + b + sp2 + c + sp3 + d) == [a, b, c, d]
  {
    assert a + sp1 + b + sp2 + c + sp3 + d == a + sp1 + (b + sp2 + c + sp3 + d);
    WordsStep(a, sp1, b + sp2 + c + sp3 + d);
    ThreeWords(b, sp2, c, sp3, d);
  }

  /** The usage text cut at the padding: the separators `": "` and `" / "`
      each split around their first space. */
  lemma UsageRegroup(title: string, padu: string, used: string, padt: string, total: string)
    ensures title + ": " + (padu + used) + " / " + (padt + total)
      == (title + ":") + (" " + padu) + used + " " + "/" + (" " + padt) + total
  {
    assert ": " == ":" + " ";
    assert " / " == " " + "/" + " ";
  }

  lemma UsageWords(title: string, used: string, total: string)
    requires title != [] && NoSpace(title + ":")
    requires used != [] && NoSpace(used) && total != [] && NoSpace(total)
    ensures Words(title + ": " + PadLeft(used, 6, ' ') + " / " + PadLeft(total, 6, ' ')) == [title + ":", used, "/", total]
  {
    var padu := PadSplit(used, 6);
    var padt := PadSplit(total, 6);
    assert NoSpace("/");
    SpaceBefore(padu);
    SpaceBefore(padt);
    assert AllSpace(" ");
    FourWords(title + ":", " " + padu, used, " ", "/", " " + padt, total);
    UsageRegroup(title, padu, used, padt, total);
  }

  /** `'<title>: %6s / %6s' % (used, total)` with used and total the 4th and
      2nd fields of `lines[k]`: the text reads back as the title, the used
      amount, a slash and the total. */
  function Usage(title: string, lines: seq<string>, k: nat): (r: Result<string>)
    requires title != [] && NoSpace(title + ":")
    ensures r.Ok? <==> k < |lines| && |Words(lines[k])| > 3
    ensures r.Err? ==> r.error == IndexError
    ensures r.Ok? ==> Words(r.value) == [title + ":", Words(lines[k])[3], "/", Words(lines[k])[1]]
  {
    if k < |lines| && |Words(lines[k])| > 3 then
      var total := Words(lines[k])[1];
      var used := Words(lines[k])[3];
      UsageWords(title, used, total);
      Ok(title + ": " + PadLeft(used, 6, ' ') + " / " + PadLeft(total, 6, ' '))
    else
      Err(IndexError)
  }

  /** `mem_usage(lines)`: used and total memory from top's fourth line. */
  function MemUsage(lines: seq<string>): (r: Result<string>)
    ensures r.Ok? <==> |lines| > 3 && |Words(lines[3])| > 3
    ensures r.Ok? ==> Words(r.value) == ["MEM:", Words(lines[3])[3], "/", Words(lines[3])[1]]
    ensures r.Err? ==> r.error == IndexError
  {
    assert "MEM" + ":" == "MEM:";
    Usage("MEM", lines, 3)
  }

  /** `swap_usage(lines)`: used and total swap from top's fifth line. */
  function SwapUsage(lines: seq<string>): (r: Result<string>)
    ensures r.Ok? <==> |lines| > 4 && |Words(lines[4])| > 3
    ensures r.Ok? ==> Words(r.value) == ["SWAP:", Words(lines[4])[3], "/", Words(lines[4])[1]]
    ensures r.Err? ==> r.error == IndexError
  {
    assert "SWAP" + ":" == "SWAP:";
    Usage("SWAP", lines, 4)
  }

  // ---------------------------------------------------------------------------
  // get_tasks_names: the tally

  /** A dictionary as its (key, value) entries in the order the keys were
      first stored. */
  type Dict<V> = seq<(string, V)>

  /** `d[k]`, None for a missing key. */
  function Get<V>(d: Dict<V>, k: string): Option<V>
  {
    if d == [] then None
    else if d[0].0 == k then Some(d[0].1)
    else Get(d[1..], k)
  }

  /** Get finds the entry with the key, and None means no entry has it. */
  lemma {:induction false} GetFinds<V>(d: Dict<V>, k: string)
    ensures Get(d, k).None? <==> forall i :: 0 <= i < |d| ==> d[i].0 != k
    ensures Get(d, k).Some? ==> exists i :: 0 <= i < |d| && d[i] == (k, Get(d, k).value)
  {
    if d != [] {
      GetFinds(d[1..], k);
      if d[0].0 != k && Get(d, k).Some? {
        var i :| 0 <= i < |d[1..]| && d[1..][i] == (k, Get(d, k).value);
        assert d[i + 1] == (k, Get(d, k).value);
      }
    }
  }

  /** No key is stored twice. */
  predicate ValidDict<V>(d: Dict<V>)
  {
    d == [] || (Get(d[1..], d[0].0).None? && ValidDict(d[1..]))
  }

  /** `d[k] = v`: the key now holds the value and every other key keeps
      its own. */
  function Put<V>(d: Dict<V>, k: string, v: V): (r: Dict<V>)
    ensures Get(r, k) == Some(v)
    ensures forall j :: j != k ==> Get(r, j) == Get(d, j)
    ensures ValidDict(d) ==> ValidDict(r)
    ensures r != []
  {
    if d == [] then [(k, v)]
    else if d[0].0 == k then [(k, v)] + d[1..]
    else [d[0]] + Put(d[1..], k, v)
  }

  /** A new key goes last; a present key keeps its place. */
  lemma {:induction false} PutOrder<V>(d: Dict<V>, k: string, v: V)
    ensures |Put(d, k, v)| == if Get(d, k).None? then |d| + 1 else |d|
    ensures forall i :: 0 <= i < |d| ==> Put(d, k, v)[i].0 == d[i].0
    ensures Get(d, k).None? ==> Put(d, k, v)[|d|] == (k, v)
  {
    if d != [] && d[0].0 != k {
      PutOrder(d[1..], k, v);
      var r := Put(d, k, v);
      assert r == [d[0]] + Put(d[1..], k, v);
      forall i | 0 <= i < |d|
        ensures r[i].0 == d[i].0
      {
        if i > 0 {
          assert r[i] == Put(d[1..], k, v)[i - 1];
        }
      }
    }
  }

  /** Per user, per command name, how many running processes. */
  type Tally = Dict<Dict<nat>>

  /** Every count is positive. */
  predicate Positive(d: Dict<nat>)
  {
    d == [] || (d[0].1 >= 1 && Positive(d[1..]))
  }

  /** One user's counts: a valid dictionary, not empty, every count
      positive. */
  predicate ValidNames(d: Dict<nat>)
  {
    ValidDict(d) && d != [] && Positive(d)
  }

  predicate AllNames(t: Tally)
  {
    t == [] || (ValidNames(t[0].1) && AllNames(t[1..]))
  }

  predicate ValidTally(t: Tally)
  {
    ValidDict(t) && AllNames(t)
  }

  lemma {:induction false} PutPositive(d: Dict<nat>, k: string, c: nat)
    requires Positive(d) && c >= 1
    ensures Positive(Put(d, k, c))
  {
    if d != [] && d[0].0 != k {
      PutPositive(d[1..], k, c);
    }
  }

  lemma {:induction false} PutNames(t: Tally, u: string, d: Dict<nat>)
    requires AllNames(t) && ValidNames(d)
    ensures AllNames(Put(t, u, d))
  {
    if t != [] && t[0].0 != u {
      PutNames(t[1..], u, d);
    }
  }

  lemma {:induction false} GetNames(t: Tally, u: string)
    requires AllNames(t) && Get(t, u).Some?
    ensures ValidNames(Get(t, u).value)
  {
    if t[0].0 != u {
      GetNames(t[1..], u);
    }
  }

  /** `tasks[user][name]`, 0 where absent. */
  function Lookup(t: Tally, user: string, name: string): nat
  {
    match Get(NamesOf(t, user), name)
    case None => 0
    case Some(n) => n
  }

  /** `if user not in tasks: tasks[user] = {}` followed by
      `tasks[user][name] = tasks[user][name] + 1 if name in tasks[user] else 1`. */
  function Bump(t: Tally, user: string, name: string): (r: Tally)
    ensures Get(r, user).Some? && Get(Get(r, user).value, name) == Some(Lookup(t, user, name) + 1)
    ensures forall u :: u != user ==> Get(r, u) == Get(t, u)
  {
    var names := NamesOf(t, user);
    Put<Dict<nat>>(t, user, Put<nat>(names, name, Lookup(t, user, name) + 1))
  }

  /** `tasks[user]`, or a fresh `{}`. */
  function NamesOf(t: Tally, user: string): Dict<nat>
  {
    match Get(t, user)
    case Some(d) => d
    case None => []
  }

  /** One more process counts one more for its own user and name only. */
  lemma BumpCounts(t: Tally, user: string, name: string)
    requires ValidTally(t)
    ensures ValidTally(Bump(t, user, name))
    ensures Bump(t, user, name) != []
    ensures forall u, n :: Lookup(Bump(t, user, name), u, n) == Lookup(t, u, n) + (if u == user && n == name then 1 else 0)
  {
    var names := NamesOf(t, user);
    if Get(t, user).Some? {
      GetNames(t, user);
    }
    var c := Lookup(t, user, name) + 1;
    var names' := Put<nat>(names, name, c);
    PutPositive(names, name, c);
    PutNames(t, user, names');
    var t' := Put<Dict<nat>>(t, user, names');
    forall u, n
      ensures Lookup(t', u, n) == Lookup(t, u, n) + (if u == user && n == name then 1 else 0)
    {
      if u != user {
        assert NamesOf(t', u) == NamesOf(t, u);
      }
    }
  }

  /** The (user, command) of each counted process line, in order. */
  type Pairs = seq<(string, string)>

  /** The tally the loop builds from the counted processes. */
  function TallyOf(pairs: Pairs): (t: Tally)
    ensures ValidTally(t)
    ensures t == [] <==> pairs == []
  {
    if pairs == [] then []
    else
      var last := pairs[|pairs| - 1];
      var t := TallyOf(pairs[..|pairs| - 1]);
      BumpCounts(t, last.0, last.1);
      Bump(t, last.0, last.1)
  }

  /** How many of the pairs are `(user, name)`. */
  function Count(pairs: Pairs, user: string, name: string): nat
  {
    if pairs == [] then 0
    else Count(pairs[..|pairs| - 1], user, name) + (if pairs[|pairs| - 1] == (user, name) then 1 else 0)
  }

  /** The tally holds, for each user and name, the number of counted
      processes with that user and name. */
  lemma {:induction false} TallyCounts(pairs: Pairs)
    ensures forall u, n :: Lookup(TallyOf(pairs), u, n) == Count(pairs, u, n)
  {
    if pairs != [] {
      var init := pairs[..|pairs| - 1];
      var last := pairs[|pairs| - 1];
      TallyCounts(init);
      BumpCounts(TallyOf(init), last.0, last.1);
    }
  }

  /** `line.split()` has a user in field 1, state R in field 7 and a
      command other than top in field 11. */
  predicate Counted(w: seq<string>)
  {
    |w| > 11 && w[7] == "R" && w[11] != "top"
  }

  /** The counted processes among `rows`, or IndexError when some row has
      fewer than twelve fields. */
  function RunningPairs(rows: seq<string>): (r: Result<Pairs>)
    ensures r.Ok? <==> forall k :: 0 <= k < |rows| ==> |Words(rows[k])| > 11
    ensures r.Err? ==> r.error == IndexError
  {
    if rows == [] then Ok([])
    else
      var init := rows[..|rows| - 1];
      var w := Words(rows[|rows| - 1]);
      assert forall k :: 0 <= k < |init| ==> init[k] == rows[k];
      match RunningPairs(init)
      case Err(e) => Err(e)
      case Ok(ps) =>
        if |w| <= 11 then Err(IndexError)
        else Ok(ps + (if Counted(w) then [(w[1], w[11])] else []))
  }

  /** The pairs are empty exactly when no row is counted, and each pair is
      the user and command of a counted row. */
  lemma {:induction false} RunningPairsFrom(rows: seq<string>)
    requires RunningPairs(rows).Ok?
    ensures var ps := RunningPairs(rows).value;
      (ps == [] <==> forall k :: 0 <= k < |rows| ==> !Counted(Words(rows[k])))
      && forall p :: p in ps ==> exists k :: 0 <= k < |rows| && Counted(Words(rows[k])) && p == (Words(rows[k])[1], Words(rows[k])[11])
    decreases |rows|
  {
    if rows != [] {
      var init := rows[..|rows| - 1];
      var w := Words(rows[|rows| - 1]);
      assert forall k :: 0 <= k < |init| ==> init[k] == rows[k];
      RunningPairsFrom(init);
      var ps := RunningPairs(init).value;
      assert RunningPairs(rows).value == ps + (if Counted(w) then [(w[1], w[11])] else []);
    }
  }

  /** The row is a counted process of `user` running `name`. */
  predicate RowIs(row: string, user: string, name: string)
  {
    var w := Words(row);
    Counted(w) && w[1] == user && w[11] == name
  }

  /** The positions of the rows that are counted processes of `user` running
      `name`. */
  function RowsOf(rows: seq<string>, user: string, name: string): set<int>
  {
    set k | 0 <= k < |rows| && RowIs(rows[k], user, name)
  }

  lemma RowsOfSnoc(rows: seq<string>, user: string, name: string)
    requires rows != []
    ensures var m := |rows| - 1;
      |RowsOf(rows, user, name)| == |RowsOf(rows[..m], user, name)| + (if RowIs(rows[m], user, name) then 1 else 0)
  {
    var m := |rows| - 1;
    var init := rows[..m];
    var before := RowsOf(init, user, name);
    assert forall k :: 0 <= k < m ==> init[k] == rows[k];
    if RowIs(rows[m], user, name) {
      assert RowsOf(rows, user, name) == before + {m};
      assert m !in before;
    } else {
      assert RowsOf(rows, user, name) == before;
    }
  }

  lemma CountSnoc(ps: Pairs, extra: Pairs, user: string, name: string)
    requires |extra| <= 1
    ensures Count(ps + extra, user, name) == Count(ps, user, name) + (if extra != [] && extra[0] == (user, name) then 1 else 0)
  {
    if extra == [] {
      assert ps + extra == ps;
    } else {
      assert (ps + extra)[..|ps|] == ps;
    }
  }

  /** Every counted row adds its pair: for each user and command, the pairs
      hold as many copies of it as there are rows counting it. */
  lemma {:induction false} RowCounts(rows: seq<string>)
    requires RunningPairs(rows).Ok?
    ensures forall u, n :: Count(RunningPairs(rows).value, u, n) == |RowsOf(rows, u, n)|
    decreases |rows|
  {
    if rows == [] {
      forall u, n
        ensures Count(RunningPairs(rows).value, u, n) == |RowsOf(rows, u, n)|
      {
        assert RowsOf(rows, u, n) == {};
      }
    } else {
      var m := |rows| - 1;
      var init := rows[..m];
      var w := Words(rows[m]);
      assert forall k :: 0 <= k < m ==> init[k] == rows[k];
      RowCounts(init);
      var ps := RunningPairs(init).value;
      var extra: Pairs := if Counted(w) then [(w[1], w[11])] else [];
      assert RunningPairs(rows).value == ps + extra;
      forall u, n
        ensures Count(RunningPairs(rows).value, u, n) == |RowsOf(rows, u, n)|
      {
        CountSnoc(ps, extra, u, n);
        RowsOfSnoc(rows, u, n);
        assert RowIs(rows[m], u, n) <==> extra != [] && extra[0] == (u, n);
      }
    }
  }

  /** The tally of the process rows holds, for each user and command, the
      number of rows that are counted processes of that user and command. */
  lemma TallyOfRows(rows: seq<string>)
    requires RunningPairs(rows).Ok?
    ensures forall u, n :: Lookup(TallyOf(RunningPairs(rows).value), u, n) == |RowsOf(rows, u, n)|
  {
    TallyCounts(RunningPairs(rows).value);
    RowCounts(rows);
  }

  // ---------------------------------------------------------------------------
  // get_tasks_names: the text

  /** `name if n == 1 else name + '*' + str(n)`. */
  function Entry(name: string, n: int): (r: string)
    ensures n == 1 <==> r == name
    ensures n != 1 ==> |r| > |name| + 1 && r[..|name|] == name && r[|name|] == '*'
  {
    if n == 1 then name else name + "*" + IntToStr(n)
  }

  /** An entry is the bare name for a count of one; otherwise the name, a
      `*` and text that `int()` reads back as the count. */
  lemma EntryReadsBack(name: string, n: int)
    ensures n == 1 ==> Entry(name, n) == name
    ensures n != 1 ==> var r := Entry(name, n);
      |r| > |name| + 1 && r[..|name|] == name && r[|name|] == '*' && ParseInt(r[|name| + 1..]) == Some(n)
  {
    if n != 1 {
      ParseIntToStr(n);
      var r := Entry(name, n);
      assert r[|name| + 1..] == IntToStr(n);
    }
  }

  /** One user's entries, each followed by `, `. */
  function NamesText(d: Dict<nat>): string
  {
    if d == [] then ""
    else NamesText(d[..|d| - 1]) + Entry(d[|d| - 1].0, d[|d| - 1].1) + ", "
  }

  /** `user:` followed by that user's entries. */
  function UserText(entry: (string, Dict<nat>)): string
  {
    entry.0 + ":" + NamesText(entry.1)
  }

  /** The users' texts, one after the other. */
  function TallyText(t: Tally): string
  {
    if t == [] then ""
    else TallyText(t[..|t| - 1]) + UserText(t[|t| - 1])
  }

  /** The text of the first `i + 1` users extends that of the first `i`. */
  lemma TallyTextStep(t: Tally, i: int)
    requires 0 <= i < |t|
    ensures "(" + TallyText(t[..i + 1]) == "(" + TallyText(t[..i]) + t[i].0 + ":" + NamesText(t[i].1)
  {
    assert t[..i + 1][..i] == t[..i];
    var a := TallyText(t[..i]);
    var b := NamesText(t[i].1);
    assert TallyText(t[..i + 1]) == a + (t[i].0 + ":" + b);
    assert "(" + (a + (t[i].0 + ":" + b)) == "(" + a + t[i].0 + ":" + b;
  }

  /** The characters `rstrip(', ')` removes. */
  const Separator: set<char> := {',', ' '}

  /** The text `get_tasks_names` builds from a tally: empty for no process,
      otherwise in parentheses with trailing separators stripped. */
  function Render(t: Tally): (r: string)
    ensures r == "" <==> t == []
    ensures r != "" ==> r[0] == '(' && r[|r| - 1] == ')'
  {
    if t == [] then ""
    else
      var s := "(" + TallyText(t);
      var body := RStrip(s, Separator);
      assert s[0] !in Separator;
      assert |body| > 0;
      body + ")"
  }

  lemma RStripSeparator(s: string)
    requires s != [] && s[|s| - 1] !in Separator
    ensures RStrip(s + ", ", Separator) == s
  {
    assert (s + ", ")[..|s| + 1] == s + ",";
    assert (s + ",")[..|s|] == s;
    RStripNoop(s, Separator);
  }

  /** Stripping the final `, ` of a text whose last entry ends otherwise. */
  lemma StripLastSeparator(text: string, head: string)
    requires "(" + text == head + ", "
    requires head != [] && head[|head| - 1] !in Separator
    ensures |text| >= 2 && RStrip("(" + text, Separator) == "(" + text[..|text| - 2]
    ensures RStrip("(" + text, Separator) + ")" == "(" + text[..|text| - 2] + ")"
  {
    RStripSeparator(head);
    assert head == ("(" + text)[..|head|];
  }

  /** When the last entry does not itself end in a comma or a space, only
      the final `, ` is removed: the text is `(`, the users' entries and
      `)`. */
  lemma RenderDropsLastSeparator(t: Tally)
    requires LastEntryPlain(t)
    ensures var text := TallyText(t);
      |text| >= 2 && Render(t) == "(" + text[..|text| - 2] + ")"
  {
    StripTallyText(t);
    RenderUnfold(t);
  }

  /** `rstrip(', ')` of the opened text removes only its final `, `. */
  lemma StripTallyText(t: Tally)
    requires LastEntryPlain(t)
    ensures var text := TallyText(t);
      |text| >= 2 && RStrip("(" + text, Separator) + ")" == "(" + text[..|text| - 2] + ")"
  {
    var text := TallyText(t);
    var prefix, u, names := LastEntry(t);
    StripAfterEntries(text, prefix, u, names);
  }

  /** The same for any text ending in a user's entries and `, `. */
  lemma StripAfterEntries(text: string, prefix: string, u: string, names: string)
    requires text == prefix + (u + ":" + (names + ", "))
    requires names != [] && names[|names| - 1] !in Separator
    ensures |text| >= 2 && RStrip("(" + text, Separator) + ")" == "(" + text[..|text| - 2] + ")"
  {
    var head := Reassemble(text, prefix, u, names);
    StripLastSeparator(text, head);
  }

  lemma RenderUnfold(t: Tally)
    requires t != []
    ensures Render(t) == RStrip("(" + TallyText(t), Separator) + ")"
  {
  }

  /** The last user has an entry, and it ends in neither a comma nor a space. */
  predicate LastEntryPlain(t: Tally)
  {
    t != [] && t[|t| - 1].1 != [] &&
    var d := t[|t| - 1].1;
    var e := Entry(d[|d| - 1].0, d[|d| - 1].1);
    e != [] && e[|e| - 1] !in Separator
  }

  /** The users' text ends with the last user's entries and `, `. */
  lemma LastEntry(t: Tally) returns (prefix: string, u: string, names: string)
    requires LastEntryPlain(t)
    ensures names != [] && names[|names| - 1] !in Separator
    ensures TallyText(t) == prefix + (u + ":" + (names + ", "))
  {
    u := t[|t| - 1].0;
    var d := t[|t| - 1].1;
    var e := Entry(d[|d| - 1].0, d[|d| - 1].1);
    var front := NamesText(d[..|d| - 1]);
    names := front + e;
    assert names[|names| - 1] == e[|e| - 1];
    assert NamesText(d) == front + e + ", " == names + ", ";
    prefix := TallyText(t[..|t| - 1]);
    assert TallyText(t) == prefix + UserText(t[|t| - 1]);
  }

  /** Regrouping the pieces of a rendered text around its last entry. */
  lemma Reassemble(text: string, prefix: string, u: string, names: string) returns (head: string)
    requires names != [] && text == prefix + (u + ":" + (names + ", "))
    ensures head == "(" + prefix + u + ":" + names
    ensures "(" + text == head + ", " && head[|head| - 1] == names[|names| - 1]
  {
    head := "(" + prefix + u + ":" + names;
  }

  /** The running-process rows: `lines[nhead+2 : nhead+2+n_tasks]`. */
  function ProcRows(lines: seq<string>, n: int): seq<string>
  {
    Slice(lines, NHead + 2, NHead + 2 + n)
  }

  /** The tally loop of `get_tasks_names` over the process rows: each
      counted row bumps its user's count for its command; a row with fewer
      than twelve fields raises IndexError. */
  method TallyRows(rows: seq<string>) returns (r: Result<Tally>)
    ensures RunningPairs(rows).Err? ==> r == Err(IndexError)
    ensures RunningPairs(rows).Ok? ==> r == Ok(TallyOf(RunningPairs(rows).value))
  {
    var tasks: Tally := [];
    for i := 0 to |rows|
      invariant RunningPairs(rows[..i]).Ok?
      invariant tasks == TallyOf(RunningPairs(rows[..i]).value)
    {
      var w := Words(rows[i]);
      assert rows[..i + 1][..i] == rows[..i] && rows[..i + 1][i] == rows[i];
      if |w| <= 11 {
        assert RunningPairs(rows).Err? by {
          assert !(|Words(rows[i])| > 11);
        }
        return Err(IndexError);
      }
      var user := w[1];
      var running := w[7];
      var name := w[11];
      ghost var ps := RunningPairs(rows[..i]).value;
      ghost var added := if Counted(w) then [(user, name)] else [];
      assert RunningPairs(rows[..i + 1]) == Ok(ps + added);
      if running == "R" && name != "top" {
        assert (ps + added)[..|ps|] == ps;
        assert TallyOf(ps + added) == Bump(TallyOf(ps), user, name);
        tasks := Bump(tasks, user, name);
      } else {
        assert ps + added == ps;
      }
    }
    assert rows[..|rows|] == rows;
    return Ok(tasks);
  }

  /** The inner rendering loop: one user's entries, each followed by `, `. */
  method NamesEntries(names: Dict<nat>) returns (out: string)
    ensures out == NamesText(names)
  {
    out := "";
    for v := 0 to |names|
      invariant out == NamesText(names[..v])
    {
      var (name, n) := names[v];
      assert names[..v + 1][..v] == names[..v];
      var s := if n == 1 then name else name + "*" + IntToStr(n);
      out := out + s + ", ";
    }
    assert names[..|names|] == names;
  }

  /** The rendering half of `get_tasks_names`. */
  method RenderTally(tasks: Tally) returns (out: string)
    ensures out == Render(tasks)
  {
    if |tasks| == 0 {
      return "";
    }
    out := "(";
    for u := 0 to |tasks|
      invariant out == "(" + TallyText(tasks[..u])
    {
      var (user, names) := tasks[u];
      var entries := NamesEntries(names);
      TallyTextStep(tasks, u);
      out := out + user + ":" + entries;
    }
    assert tasks[..|tasks|] == tasks;
    out := RStrip(out, Separator) + ")";
  }

  /** `get_tasks_names(lines)`: the users' running commands, with counts,
      among the first `n_tasks` process lines, excluding top itself. */
  method GetTasksNames(lines: seq<string>) returns (r: Result<string>)
    ensures RunningCount(lines).Err? ==> r == Err(RunningCount(lines).error)
    ensures RunningCount(lines).Ok? && RunningPairs(ProcRows(lines, RunningCount(lines).value)).Err? ==> r == Err(IndexError)
    ensures RunningCount(lines).Ok? && RunningPairs(ProcRows(lines, RunningCount(lines).value)).Ok? ==>
      r == Ok(Render(TallyOf(RunningPairs(ProcRows(lines, RunningCount(lines).value)).value)))
  {
    var count := RunningCount(lines);
    if count.Err? {
      return Err(count.error);
    }
    var tally := TallyRows(ProcRows(lines, count.value));
    match tally
    case Err(e) => r := Err(e);
    case Ok(tasks) =>
      var out := RenderTally(tasks);
      r := Ok(out);
  }
}
