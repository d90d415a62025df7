/**
 * The per-file source metrics of the code-quality dashboard (analyzer.py).
 *
 * A file is summarised by its base name, its line count, the number of
 * plain function definitions anywhere in its syntax tree, and the mean and
 * largest span length of those definitions.  A folder is summarised by one
 * record per regular file whose name ends in ".py", in listing order.
 *
 * The file reader, the parser and the directory listing are external: they
 * are parameters here (`read`, `parse`, a sequence of directory entries).
 */
module Analyzer {
  import opened Wrappers

  // ---------------------------------------------------------------------
  // Syntax trees
  // ---------------------------------------------------------------------

  /** Node kinds other than a plain (non-async) function definition. */
  datatype OtherKind = Module | ClassDef | AsyncFunctionDef | Statement | Expression | Context

  /**
   * A syntax-tree node with its children in the parser's field order.
   * A plain function definition always carries its first line and may carry
   * an explicit last line; other nodes may or may not carry a line number.
   */
  datatype Node =
    | FunctionDef(start: int, endLineno: Option<int>, children: seq<Node>)
    | Other(kind: OtherKind, lineno: Option<int>, children: seq<Node>)

  /** The `lineno` attribute of a node, when it has one. */
  function LineOf(n: Node): Option<int>
  {
    match n
    case FunctionDef(start, _, _) => Some(start)
    case Other(_, lineno, _) => lineno
  }

  /** Number of nodes in a tree, and in a sequence of trees. */
  function Size(n: Node): nat
    decreases n
  {
    1 + ForestSize(n.children)
  }

  function ForestSize(ns: seq<Node>): nat
    decreases ns
  {
    if ns == [] then 0 else Size(ns[0]) + ForestSize(ns[1..])
  }

  lemma {:induction false} ForestSizeAppend(a: seq<Node>, b: seq<Node>)
    ensures ForestSize(a + b) == ForestSize(a) + ForestSize(b)
    decreases |a|
  {
    if a == [] {
      assert a + b == b;
    } else {
      assert (a + b)[0] == a[0];
      assert (a + b)[1..] == a[1..] + b;
      ForestSizeAppend(a[1..], b);
    }
  }

  lemma ForestSizeCons(todo: seq<Node>)
    requires todo != []
    ensures ForestSize(todo[1..] + todo[0].children) + 1 == ForestSize(todo)
  {
    assert Size(todo[0]) == 1 + ForestSize(todo[0].children);
    ForestSizeAppend(todo[1..], todo[0].children);
  }

  /**
   * Breadth-first traversal from a queue of pending nodes, as `ast.walk`
   * does it: take the front node, queue its children at the back, yield it.
   */
  function WalkFrom(todo: seq<Node>): seq<Node>
    decreases ForestSize(todo)
  {
    if todo == [] then []
    else
      ForestSizeCons(todo);
      [todo[0]] + WalkFrom(todo[1..] + todo[0].children)
  }

  /** Every node of the tree rooted at `n`, the root first. */
  function Walk(n: Node): (r: seq<Node>)
    ensures |r| > 0 && r[0] == n
  {
    WalkFrom([n])
  }

  /** The plain function definitions among `ns`, in order. */
  function FunctionDefsIn(ns: seq<Node>): (r: seq<Node>)
    ensures forall i :: 0 <= i < |r| ==> r[i].FunctionDef?
  {
    if ns == [] then []
    else (if ns[0].FunctionDef? then [ns[0]] else []) + FunctionDefsIn(ns[1..])
  }

  /** The `functions` list: every plain function definition met by the walk. */
  function Functions(tree: Node): (r: seq<Node>)
    ensures forall i :: 0 <= i < |r| ==> r[i].FunctionDef?
  {
    FunctionDefsIn(Walk(tree))
  }

  /** Reference count: plain function definitions at any depth, by structure. */
  function CountFunctionDefs(n: Node): nat
    decreases n
  {
    (if n.FunctionDef? then 1 else 0) + ForestCount(n.children)
  }

  function ForestCount(ns: seq<Node>): nat
    decreases ns
  {
    if ns == [] then 0 else CountFunctionDefs(ns[0]) + ForestCount(ns[1..])
  }

  lemma {:induction false} ForestCountAppend(a: seq<Node>, b: seq<Node>)
    ensures ForestCount(a + b) == ForestCount(a) + ForestCount(b)
    decreases |a|
  {
    if a == [] {
      assert a + b == b;
    } else {
      assert (a + b)[0] == a[0];
      assert (a + b)[1..] == a[1..] + b;
      ForestCountAppend(a[1..], b);
    }
  }

  lemma {:induction false} FunctionDefsInCons(n: Node, ns: seq<Node>)
    ensures |FunctionDefsIn([n] + ns)| == (if n.FunctionDef? then 1 else 0) + |FunctionDefsIn(ns)|
  {
    assert ([n] + ns)[0] == n;
    assert ([n] + ns)[1..] == ns;
  }

  /** The walk meets every function definition of every queued tree exactly once. */
  lemma {:induction false} WalkFromCountsFunctionDefs(todo: seq<Node>)
    ensures |FunctionDefsIn(WalkFrom(todo))| == ForestCount(todo)
    decreases ForestSize(todo)
  {
    if todo != [] {
      var next := todo[1..] + todo[0].children;
      ForestSizeCons(todo);
      WalkFromCountsFunctionDefs(next);
      ForestCountAppend(todo[1..], todo[0].children);
      FunctionDefsInCons(todo[0], WalkFrom(next));
    }
  }

  /** Reference contents: every node of a tree, and of a sequence of trees, by structure. */
  function Nodes(n: Node): multiset<Node>
    decreases n
  {
    multiset{n} + ForestNodes(n.children)
  }

  function ForestNodes(ns: seq<Node>): multiset<Node>
    decreases ns
  {
    if ns == [] then multiset{} else Nodes(ns[0]) + ForestNodes(ns[1..])
  }

  lemma {:induction false} ForestNodesAppend(a: seq<Node>, b: seq<Node>)
    ensures ForestNodes(a + b) == ForestNodes(a) + ForestNodes(b)
    decreases |a|
  {
    if a == [] {
      assert a + b == b;
    } else {
      assert (a + b)[0] == a[0];
      assert (a + b)[1..] == a[1..] + b;
      ForestNodesAppend(a[1..], b);
    }
  }

  /** The walk from a queue meets every node of every queued tree exactly once, and nothing else. */
  lemma {:induction false} WalkFromVisitsEveryNodeOnce(todo: seq<Node>)
    ensures multiset(WalkFrom(todo)) == ForestNodes(todo)
    ensures |WalkFrom(todo)| == ForestSize(todo)
    decreases ForestSize(todo)
  {
    if todo != [] {
      var next := todo[1..] + todo[0].children;
      ForestSizeCons(todo);
      WalkFromVisitsEveryNodeOnce(next);
      ForestNodesAppend(todo[1..], todo[0].children);
      assert multiset([todo[0]] + WalkFrom(next)) == multiset{todo[0]} + multiset(WalkFrom(next));
    }
  }

  /** `ast.walk(tree)` yields each node of the tree exactly once. */
  lemma WalkVisitsEveryNodeOnce(n: Node)
    ensures multiset(Walk(n)) == Nodes(n)
    ensures |Walk(n)| == Size(n)
  {
    WalkFromVisitsEveryNodeOnce([n]);
    assert [n][1..] == [];
  }

  // ---------------------------------------------------------------------
  // Span lengths
  // ---------------------------------------------------------------------

  /** The line numbers of the nodes of `ns` that have one, in order. */
  function LinesOf(ns: seq<Node>): seq<int>
  {
    if ns == [] then []
    else (if LineOf(ns[0]).Some? then [LineOf(ns[0]).value] else []) + LinesOf(ns[1..])
  }

  lemma {:induction false} LinesOfContains(ns: seq<Node>, i: nat)
    requires i < |ns| && LineOf(ns[i]).Some?
    ensures LineOf(ns[i]).value in LinesOf(ns)
  {
    if i > 0 {
      LinesOfContains(ns[1..], i - 1);
    }
  }

  /** Python's `max` over a non-empty list. */
  function Max(xs: seq<int>): (r: int)
    requires xs != []
    ensures r in xs
    ensures forall i :: 0 <= i < |xs| ==> xs[i] <= r
  {
    if |xs| == 1 then xs[0]
    else
      var m := Max(xs[1..]);
      if xs[0] >= m then xs[0] else m
  }

  /** Python's `min` over a non-empty list. */
  function Min(xs: seq<int>): (r: int)
    requires xs != []
    ensures r in xs
    ensures forall i :: 0 <= i < |xs| ==> r <= xs[i]
  {
    if |xs| == 1 then xs[0]
    else
      var m := Min(xs[1..]);
      if xs[0] <= m then xs[0] else m
  }

  /** Python's `sum`. */
  function Sum(xs: seq<int>): int
  {
    if xs == [] then 0 else xs[0] + Sum(xs[1..])
  }

  /**
   * The last line of a function definition: its explicit end line, or else
   * the largest line number met by a walk of the definition, defaulting to
   * its own first line.
   */
  function SpanEnd(f: Node): int
    requires f.FunctionDef?
  {
    match f.endLineno
    case Some(e) => e
    case None =>
      var lines := LinesOf(Walk(f));
      if lines == [] then f.start else Max(lines)
  }

  /** Inclusive span length `end - start + 1`. */
  function SpanLength(f: Node): int
    requires f.FunctionDef?
  {
    SpanEnd(f) - f.start + 1
  }

  /** The `function_lengths` list, one length per definition, in order. */
  function SpanLengths(fs: seq<Node>): (r: seq<int>)
    requires forall i :: 0 <= i < |fs| ==> fs[i].FunctionDef?
    ensures |r| == |fs|
  {
    if fs == [] then [] else SpanLengths(fs[..|fs| - 1]) + [SpanLength(fs[|fs| - 1])]
  }

  lemma SpanLengthsSnoc(fs: seq<Node>, i: nat)
    requires forall j :: 0 <= j < |fs| ==> fs[j].FunctionDef?
    requires i < |fs|
    ensures SpanLengths(fs[..i + 1]) == SpanLengths(fs[..i]) + [SpanLength(fs[i])]
  {
    assert fs[..i + 1][..i] == fs[..i];
    assert fs[..i + 1][i] == fs[i];
  }

  lemma {:induction false} SpanLengthsAt(fs: seq<Node>, i: nat)
    requires forall j :: 0 <= j < |fs| ==> fs[j].FunctionDef?
    requires i < |fs|
    ensures SpanLengths(fs)[i] == SpanLength(fs[i])
    decreases |fs|
  {
    if i < |fs| - 1 {
      SpanLengthsAt(fs[..|fs| - 1], i);
    }
  }

  /**
   * The end-line fallback never goes before the start: the walk of a
   * definition begins with the definition itself, so the fallback end is the
   * largest line in the definition's subtree and at least its first line.
   */
  lemma FallbackEndIsSubtreeMaximum(f: Node)
    requires f.FunctionDef? && f.endLineno.None?
    ensures SpanEnd(f) >= f.start
    ensures SpanEnd(f) in LinesOf(Walk(f))
    ensures forall n :: n in Walk(f) && LineOf(n).Some? ==> LineOf(n).value <= SpanEnd(f)
  {
    var w := Walk(f);
    LinesOfContains(w, 0);
    forall n | n in w && LineOf(n).Some?
      ensures LineOf(n).value <= SpanEnd(f)
    {
      var i :| 0 <= i < |w| && w[i] == n;
      LinesOfContains(w, i);
    }
  }

  /** What the parser guarantees of an explicit end line: it is not before the start. */
  predicate WellFormed(tree: Node)
  {
    forall f :: f in Functions(tree) ==>
      f.FunctionDef? && (f.endLineno.Some? ==> f.endLineno.value >= f.start)
  }

  /** Every span of a well-formed definition is at least one line long. */
  lemma SpanLengthPositive(f: Node)
    requires f.FunctionDef?
    requires f.endLineno.Some? ==> f.endLineno.value >= f.start
    ensures SpanLength(f) >= 1
  {
    if f.endLineno.None? {
      FallbackEndIsSubtreeMaximum(f);
    }
  }

  lemma SpanLengthsPositive(tree: Node)
    requires WellFormed(tree)
    ensures forall i :: 0 <= i < |SpanLengths(Functions(tree))| ==> SpanLengths(Functions(tree))[i] >= 1
  {
    var fs := Functions(tree);
    forall i | 0 <= i < |SpanLengths(fs)|
      ensures SpanLengths(fs)[i] >= 1
    {
      SpanLengthsAt(fs, i);
      assert fs[i] in fs;
      SpanLengthPositive(fs[i]);
    }
  }

  lemma MulMonotone(n: nat, a: int, b: int)
    requires a <= b
    ensures n * a <= n * b
  {
    assert n * b - n * a == n * (b - a);
  }

  lemma SumStep(n: nat, x: int, s: int, lo: int, hi: int, loRest: int, hiRest: int)
    requires lo <= loRest && hiRest <= hi && lo <= x <= hi
    requires n * loRest <= s <= n * hiRest
    ensures (n + 1) * lo <= x + s <= (n + 1) * hi
  {
    MulMonotone(n, lo, loRest);
    MulMonotone(n, hiRest, hi);
  }

  lemma {:induction false} SumBounds(xs: seq<int>)
    requires xs != []
    ensures |xs| * Min(xs) <= Sum(xs) <= |xs| * Max(xs)
    decreases |xs|
  {
    if |xs| > 1 {
      var rest := xs[1..];
      SumBounds(rest);
      SumStep(|rest|, xs[0], Sum(rest), Min(xs), Max(xs), Min(rest), Max(rest));
    }
  }

  // ---------------------------------------------------------------------
  // Lines, base names, paths
  // ---------------------------------------------------------------------

  /** The characters `str.splitlines` treats as line boundaries. */
  predicate IsLineBreak(c: char)
  {
    c == '\n' || c == '\r' || c == '\U{000B}' || c == '\U{000C}' ||
    c == '\U{001C}' || c == '\U{001D}' || c == '\U{001E}' ||
    c == '\U{0085}' || c == '\U{2028}' || c == '\U{2029}'
  }

  /** Index of the first line boundary in `s`, or `|s|` when there is none. */
  function FirstBreak(s: string): (k: nat)
    ensures k <= |s|
    ensures forall i :: 0 <= i < k ==> !IsLineBreak(s[i])
    ensures k < |s| ==> IsLineBreak(s[k])
  {
    if s == [] then 0
    else if IsLineBreak(s[0]) then 0
    else 1 + FirstBreak(s[1..])
  }

  /** A boundary is one character, except "\r\n", which is two. */
  function BreakWidth(s: string, k: nat): nat
    requires k < |s|
  {
    if s[k] == '\r' && k + 1 < |s| && s[k + 1] == '\n' then 2 else 1
  }

  /** `str.splitlines()`: the lines of `s` without their terminators. */
  function SplitLines(s: string): seq<string>
    decreases |s|
  {
    if s == [] then []
    else
      var k := FirstBreak(s);
      if k == |s| then [s]
      else [s[..k]] + SplitLines(s[k + BreakWidth(s, k)..])
  }

  /** Reference count of line boundaries, reading left to right. */
  function CountBreaks(s: string): nat
    decreases |s|
  {
    if s == [] then 0
    else if s[0] == '\r' && |s| > 1 && s[1] == '\n' then 1 + CountBreaks(s[2..])
    else if IsLineBreak(s[0]) then 1 + CountBreaks(s[1..])
    else CountBreaks(s[1..])
  }

  /** 1 when the text ends in an unterminated line, else 0. */
  function OpenLastLine(s: string): nat
  {
    if s != [] && !IsLineBreak(s[|s| - 1]) then 1 else 0
  }

  lemma {:induction false} CountBreaksSkipsText(s: string, k: nat)
    requires k <= |s|
    requires forall i :: 0 <= i < k ==> !IsLineBreak(s[i])
    ensures CountBreaks(s) == CountBreaks(s[k..])
    decreases k
  {
    if k > 0 {
      assert s[0] != '\r';
      CountBreaksSkipsText(s[1..], k - 1);
      assert s[1..][k - 1..] == s[k..];
    }
  }

  /**
   * The line count is the number of boundaries, plus one for an
   * unterminated last line: empty text has no lines, and a final
   * terminator does not open a new one.
   */
  lemma {:induction false} LineCountIsBreaksPlusOpenLine(s: string)
    ensures |SplitLines(s)| == CountBreaks(s) + OpenLastLine(s)
    decreases |s|
  {
    if s != [] {
      var k := FirstBreak(s);
      if k < |s| {
        BreakCountStep(s, k);
        LineCountIsBreaksPlusOpenLine(s[k + BreakWidth(s, k)..]);
      } else {
        CountBreaksSkipsText(s, k);
      }
    }
  }

  /** Past the first line and its boundary, one boundary fewer and the same last line. */
  lemma BreakCountStep(s: string, k: nat)
    requires k == FirstBreak(s) && k < |s|
    ensures var rest := s[k + BreakWidth(s, k)..];
      CountBreaks(s) == 1 + CountBreaks(rest) && OpenLastLine(s) == OpenLastLine(rest)
  {
    CountBreaksSkipsText(s, k);
    var w := BreakWidth(s, k);
    var rest := s[k + w..];
    var t := s[k..];
    assert t[0] == s[k];
    if w == 2 {
      assert t[1] == '\n';
      assert t[2..] == rest;
    } else {
      assert t[1..] == rest;
    }
    assert CountBreaks(t) == 1 + CountBreaks(rest);
    if rest == [] {
      assert IsLineBreak(s[|s| - 1]);
    } else {
      assert rest[|rest| - 1] == s[|s| - 1];
    }
  }

  /** No line returned by SplitLines contains a line boundary. */
  lemma {:induction false} LinesHaveNoBreaks(s: string)
    ensures forall i, j :: 0 <= i < |SplitLines(s)| && 0 <= j < |SplitLines(s)[i]| ==> !IsLineBreak(SplitLines(s)[i][j])
    decreases |s|
  {
    if s != [] {
      var k := FirstBreak(s);
      if k < |s| {
        LinesHaveNoBreaks(s[k + BreakWidth(s, k)..]);
      }
    }
  }

  /** A terminator after an unterminated last line adds no line. */
  lemma {:induction false} TrailingBreakAddsNoLine(s: string, t: char)
    requires s != [] && !IsLineBreak(s[|s| - 1])
    requires IsLineBreak(t)
    ensures SplitLines(s + [t]) == SplitLines(s)
    decreases |s|
  {
    var k := FirstBreak(s);
    if k == |s| {
      TrailingBreakAfterLastLine(s, t);
    } else {
      var w := BreakWidth(s, k);
      TrailingBreakStep(s, t, k);
      TrailingBreakAddsNoLine(s[k + w..], t);
    }
  }

  /** Text without a boundary followed by one boundary is still one line. */
  lemma TrailingBreakAfterLastLine(s: string, t: char)
    requires s != [] && FirstBreak(s) == |s|
    requires IsLineBreak(t)
    ensures SplitLines(s + [t]) == SplitLines(s)
  {
    var st := s + [t];
    assert forall i :: 0 <= i < |s| ==> st[i] == s[i];
    FirstBreakOfPrefix(st, |s|);
    assert BreakWidth(st, |s|) == 1;
    assert st[..|s|] == s;
    assert st[|s| + 1..] == [];
  }

  /** Before the last line, the first line and boundary are the same with the terminator added. */
  lemma TrailingBreakStep(s: string, t: char, k: nat)
    requires s != [] && !IsLineBreak(s[|s| - 1])
    requires IsLineBreak(t)
    requires k == FirstBreak(s) && k < |s|
    ensures var rest := s[k + BreakWidth(s, k)..];
      rest != [] && !IsLineBreak(rest[|rest| - 1]) &&
      SplitLines(s + [t]) == [s[..k]] + SplitLines(rest + [t]) &&
      SplitLines(s) == [s[..k]] + SplitLines(rest)
  {
    var st := s + [t];
    assert forall i :: 0 <= i < |s| ==> st[i] == s[i];
    FirstBreakOfPrefix(st, k);
    var w := BreakWidth(s, k);
    assert k + 1 < |s| by {
      assert k != |s| - 1;
    }
    assert BreakWidth(st, k) == w;
    assert st[..k] == s[..k];
    var rest := s[k + w..];
    assert rest != [] by {
      if w == 2 {
        assert IsLineBreak(s[k + 1]);
        assert k + 1 != |s| - 1;
      }
    }
    assert rest[|rest| - 1] == s[|s| - 1];
    assert st[k + w..] == rest + [t];
  }

  lemma {:induction false} FirstBreakOfPrefix(s: string, k: nat)
    requires k < |s|
    requires forall i :: 0 <= i < k ==> !IsLineBreak(s[i])
    requires IsLineBreak(s[k])
    ensures FirstBreak(s) == k
    decreases k
  {
    if k > 0 {
      FirstBreakOfPrefix(s[1..], k - 1);
    }
  }

  lemma LineCountExamples()
    ensures |SplitLines("")| == 0
    ensures |SplitLines("a\nb")| == 2
    ensures |SplitLines("a\nb\n")| == 2
  {
    LineCountIsBreaksPlusOpenLine("a\nb");
    TrailingBreakAddsNoLine("a\nb", '\n');
    assert "a\nb" + ['\n'] == "a\nb\n";
  }

  /** `os.path.basename`: the text after the last '/'. */
  function BaseName(p: string): string
  {
    if p == [] then []
    else if p[|p| - 1] == '/' then []
    else BaseName(p[..|p| - 1]) + [p[|p| - 1]]
  }

  /** The base name is the longest '/'-free suffix: it is preceded by a '/' or is everything. */
  lemma {:induction false} BaseNameIsLastComponent(p: string)
    ensures var r := BaseName(p);
      |r| <= |p| && r == p[|p| - |r|..] &&
      (forall i :: 0 <= i < |r| ==> r[i] != '/') &&
      (|r| < |p| ==> p[|p| - |r| - 1] == '/')
    decreases |p|
  {
    if p != [] && p[|p| - 1] != '/' {
      var init := p[..|p| - 1];
      var last := p[|p| - 1];
      BaseNameIsLastComponent(init);
      var r' := BaseName(init);
      var k := |init| - |r'|;
      assert BaseName(p) == r' + [last];
      assert init[k..] + [last] == p[k..];
      assert forall i :: 0 <= i < |r'| + 1 ==> (r' + [last])[i] != '/' by {
        forall i | 0 <= i < |r'| + 1 ensures (r' + [last])[i] != '/' {
          if i < |r'| { assert (r' + [last])[i] == r'[i]; }
        }
      }
      assert k > 0 ==> p[k - 1] == init[k - 1];
    }
  }

  /** `os.path.join(folder, name)` on a POSIX system. */
  function JoinPath(folder: string, name: string): string
  {
    if |name| > 0 && name[0] == '/' then name
    else if folder == [] || folder[|folder| - 1] == '/' then folder + name
    else folder + "/" + name
  }

  /** Appending a character other than '/' extends the base name by it. */
  lemma BaseNameSnoc(p: string, c: char)
    requires c != '/'
    ensures BaseName(p + [c]) == BaseName(p) + [c]
  {
    var q := p + [c];
    assert q[..|q| - 1] == p;
  }

  /** After a '/' (or from the start), a '/'-free name is the whole base name. */
  lemma {:induction false} BaseNameAfterSlash(pre: string, name: string)
    requires forall i :: 0 <= i < |name| ==> name[i] != '/'
    requires pre == [] || pre[|pre| - 1] == '/'
    ensures BaseName(pre + name) == name
    decreases |name|
  {
    if name == [] {
      assert pre + name == pre;
    } else {
      var init := name[..|name| - 1];
      var last := name[|name| - 1];
      assert init + [last] == name;
      calc {
        BaseName(pre + name);
        == { assert pre + name == (pre + init) + [last]; }
        BaseName((pre + init) + [last]);
        == { BaseNameSnoc(pre + init, last); }
        BaseName(pre + init) + [last];
        == { assert forall i :: 0 <= i < |init| ==> init[i] == name[i];
             BaseNameAfterSlash(pre, init); }
        init + [last];
      }
    }
  }

  /** The base name of a joined path is the entry name (which has no '/'). */
  lemma BaseNameOfJoin(folder: string, name: string)
    requires '/' !in name
    ensures BaseName(JoinPath(folder, name)) == name
  {
    assert forall i :: 0 <= i < |name| ==> name[i] in name;
    if folder == [] || folder[|folder| - 1] == '/' {
      BaseNameAfterSlash(folder, name);
    } else {
      BaseNameAfterSlash(folder + "/", name);
      assert folder + "/" + name == (folder + "/") + name;
    }
  }

  /** `str.endswith`. */
  predicate EndsWith(s: string, suffix: string)
  {
    |suffix| <= |s| && s[|s| - |suffix|..] == suffix
  }

  // ---------------------------------------------------------------------
  // Per-file metrics
  // ---------------------------------------------------------------------

  /** The record `analyze_python_file` returns; the mean is exact (no rounding). */
  datatype FileMetrics = FileMetrics(
    file: string,
    lineCount: nat,
    functionCount: nat,
    avgFunctionLength: real,
    maxFunctionLength: int)

  /** The failures that propagate out of the analysis. */
  datatype AnalysisError = ReadError(path: string) | SyntaxError(path: string)

  /** The metrics of a file with the given path, text and parsed tree. */
  function Metrics(path: string, content: string, tree: Node): FileMetrics
  {
    var functions := Functions(tree);
    var lengths := SpanLengths(functions);
    FileMetrics(
      BaseName(path),
      |SplitLines(content)|,
      |functions|,
      if |functions| > 0 then (Sum(lengths) as real) / (|lengths| as real) else 0.0,
      if |lengths| > 0 then Max(lengths) else 0)
  }

  /** `function_count` counts every plain definition, nested ones and methods included. */
  lemma FunctionCountIsTreeCount(path: string, content: string, tree: Node)
    ensures Metrics(path, content, tree).functionCount == CountFunctionDefs(tree)
  {
    WalkFromCountsFunctionDefs([tree]);
    assert ForestCount([tree]) == CountFunctionDefs(tree) by {
      assert [tree][1..] == [];
    }
  }

  /** No definitions gives zero mean and maximum; on a well-formed tree, conversely. */
  lemma NoFunctionsIffZeroLengths(path: string, content: string, tree: Node)
    ensures var m := Metrics(path, content, tree);
      m.functionCount == 0 ==> m.avgFunctionLength == 0.0 && m.maxFunctionLength == 0
    ensures var m := Metrics(path, content, tree);
      WellFormed(tree) && m.maxFunctionLength == 0 ==> m.functionCount == 0
  {
    if WellFormed(tree) && |Functions(tree)| > 0 {
      SpanLengthsPositive(tree);
    }
  }

  /** The maximum is one of the lengths and no length exceeds it. */
  lemma MaxIsLongestSpan(path: string, content: string, tree: Node)
    requires |Functions(tree)| > 0
    ensures var m := Metrics(path, content, tree);
      var lengths := SpanLengths(Functions(tree));
      m.maxFunctionLength in lengths &&
      forall i :: 0 <= i < |lengths| ==> lengths[i] <= m.maxFunctionLength
  {
  }

  /** Dividing bounds `n * lo <= s <= n * hi` by a positive count. */
  lemma MeanOfBoundedSum(lo: int, s: int, hi: int, n: int)
    requires n > 0 && n * lo <= s <= n * hi
    ensures lo as real <= (s as real) / (n as real) <= hi as real
  {
    var q := (s as real) / (n as real);
    var nr := n as real;
    assert q * nr == s as real;
    assert (n * lo) as real == nr * (lo as real);
    assert (n * hi) as real == nr * (hi as real);
    assert nr * (q - lo as real) >= 0.0;
    assert nr * (hi as real - q) >= 0.0;
  }

  /** The exact mean lies between the shortest and the longest span. */
  lemma MeanBetweenShortestAndLongest(path: string, content: string, tree: Node)
    requires |Functions(tree)| > 0
    ensures var m := Metrics(path, content, tree);
      var lengths := SpanLengths(Functions(tree));
      Min(lengths) as real <= m.avgFunctionLength <= m.maxFunctionLength as real
  {
    var lengths := SpanLengths(Functions(tree));
    SumBounds(lengths);
    MeanOfBoundedSum(Min(lengths), Sum(lengths), Max(lengths), |lengths|);
  }

  /** On a well-formed tree every span, and so the mean and maximum, is at least 1. */
  lemma SpansAtLeastOneLine(path: string, content: string, tree: Node)
    requires WellFormed(tree) && |Functions(tree)| > 0
    ensures var m := Metrics(path, content, tree);
      1.0 <= m.avgFunctionLength <= m.maxFunctionLength as real
  {
    var lengths := SpanLengths(Functions(tree));
    SpanLengthsPositive(tree);
    MeanBetweenShortestAndLongest(path, content, tree);
    var k :| 0 <= k < |lengths| && lengths[k] == Min(lengths);
  }

  /** One definition spanning lines 3 to 7 of a seven-line file. */
  lemma OneFunctionScenario(content: string)
    requires |SplitLines(content)| == 7
    ensures Metrics("pkg/one.py", content, Other(Module, None, [FunctionDef(3, Some(7), [])]))
         == FileMetrics("one.py", 7, 1, 5.0, 5)
  {
    var f := FunctionDef(3, Some(7), []);
    var tree := Other(Module, None, [f]);
    OneFunctionLengths(f, tree);
    MetricsOfOneSpan("pkg/one.py", content, tree, f, 5);
    OneFileBaseName();
  }

  lemma OneFileBaseName()
    ensures BaseName("pkg/one.py") == "one.py"
  {
    BaseNameAfterSlash("pkg/", "one.py");
    assert "pkg/" + "one.py" == "pkg/one.py";
  }

  /** A tree with a single definition of span `n` has count 1, mean `n` and maximum `n`. */
  lemma MetricsOfOneSpan(path: string, content: string, tree: Node, f: Node, n: int)
    requires Functions(tree) == [f] && SpanLengths([f]) == [n]
    ensures Metrics(path, content, tree) == FileMetrics(BaseName(path), |SplitLines(content)|, 1, n as real, n)
  {
    assert Sum([n]) == n && Max([n]) == n;
  }

  /** A terminated line without inner boundaries is split off as one line. */
  lemma SplitLinesFirstLine(line: string, rest: string)
    requires forall i :: 0 <= i < |line| ==> !IsLineBreak(line[i])
    ensures SplitLines(line + "\n" + rest) == [line] + SplitLines(rest)
  {
    var s := line + "\n" + rest;
    assert s[|line|] == '\n';
    FirstBreakOfPrefix(s, |line|);
    assert s[..|line|] == line;
    assert s[|line| + 1..] == rest;
  }

  /** Text made of `lines`, each followed by "\n". */
  function Terminated(lines: seq<string>): string
    decreases |lines|
  {
    if lines == [] then "" else lines[0] + "\n" + Terminated(lines[1..])
  }

  /** Splitting text made of terminated lines gives back exactly those lines. */
  lemma {:induction false} SplitLinesOfTerminated(lines: seq<string>)
    requires forall i, j :: 0 <= i < |lines| && 0 <= j < |lines[i]| ==> !IsLineBreak(lines[i][j])
    ensures SplitLines(Terminated(lines)) == lines
    decreases |lines|
  {
    if lines != [] {
      SplitLinesOfTerminated(lines[1..]);
      SplitLinesFirstLine(lines[0], Terminated(lines[1..]));
    }
  }

  lemma OneFunctionLengths(f: Node, tree: Node)
    requires f == FunctionDef(3, Some(7), []) && tree == Other(Module, None, [f])
    ensures Functions(tree) == [f] && SpanLengths([f]) == [5]
  {
    assert WalkFrom([f]) == [f] by {
      assert [f][1..] + f.children == [];
    }
    assert Walk(tree) == [tree, f] by {
      assert [tree][1..] + tree.children == [f];
    }
    assert [tree, f][1..] == [f];
    assert [f][1..] == [];
    assert FunctionDefsIn([f]) == [f] + FunctionDefsIn([]);
    assert FunctionDefsIn([tree, f]) == FunctionDefsIn([f]);
    assert [f][..0] == [];
  }

  /** A method nested in a class and a function nested in it both count. */
  lemma NestedDefinitionsScenario()
    ensures CountFunctionDefs(Other(Module, None, [
              Other(ClassDef, Some(1), [
                FunctionDef(2, Some(6), [FunctionDef(3, Some(4), [])])]),
              Other(AsyncFunctionDef, Some(8), [])])) == 2
  {
  }

  /** A definition without an explicit end takes the last line of its subtree. */
  lemma FallbackEndScenario()
    ensures SpanLength(FunctionDef(5, None, [Other(Statement, Some(6), [Other(Context, None, [])]),
                                             Other(Statement, Some(8), [])])) == 4
  {
    var c := Other(Context, None, []);
    var s1 := Other(Statement, Some(6), [c]);
    var s2 := Other(Statement, Some(8), []);
    var f := FunctionDef(5, None, [s1, s2]);
    FallbackScenarioLines(f, s1, s2, c);
    assert [5, 6, 8][1..] == [6, 8] && [6, 8][1..] == [8];
    assert Max([8]) == 8;
    assert Max([6, 8]) == 8;
    assert Max([5, 6, 8]) == 8;
  }

  lemma FallbackScenarioLines(f: Node, s1: Node, s2: Node, c: Node)
    requires c == Other(Context, None, [])
    requires s1 == Other(Statement, Some(6), [c]) && s2 == Other(Statement, Some(8), [])
    requires f == FunctionDef(5, None, [s1, s2])
    ensures LinesOf(Walk(f)) == [5, 6, 8]
  {
    FallbackScenarioWalk(f, s1, s2, c);
    assert [c][1..] == [];
    assert LinesOf([c]) == [];
    assert [s2, c][1..] == [c];
    assert LinesOf([s2, c]) == [8];
    assert [s1, s2, c][1..] == [s2, c];
    assert LinesOf([s1, s2, c]) == [6, 8];
    assert [f, s1, s2, c][1..] == [s1, s2, c];
  }

  lemma FallbackScenarioWalk(f: Node, s1: Node, s2: Node, c: Node)
    requires c == Other(Context, None, [])
    requires s1 == Other(Statement, Some(6), [c]) && s2 == Other(Statement, Some(8), [])
    requires f == FunctionDef(5, None, [s1, s2])
    ensures Walk(f) == [f, s1, s2, c]
  {
    assert [c][1..] + c.children == [];
    assert WalkFrom([c]) == [c];
    assert [s2, c][1..] + s2.children == [c];
    assert WalkFrom([s2, c]) == [s2, c];
    assert [s1, s2][1..] + s1.children == [s2, c];
    assert WalkFrom([s1, s2]) == [s1, s2, c];
    assert [f][1..] + f.children == [s1, s2];
  }

  /**
   * `analyze_python_file`: read the file, parse it, collect the definitions,
   * compute one span length per definition, and build the record.
   */
  method AnalyzePythonFile(filePath: string, read: string -> Option<string>, parse: string -> Option<Node>)
    returns (r: Result<FileMetrics, AnalysisError>)
    ensures r == FileResult(filePath, read, parse)
  {
    var text := read(filePath);
    if text.None? {
      return Failure(ReadError(filePath));
    }
    var content := text.value;
    var parsed := parse(content);
    if parsed.None? {
      return Failure(SyntaxError(filePath));
    }
    var tree := parsed.value;
    var functions := Functions(tree);
    var lengths: seq<int> := [];
    for i := 0 to |functions|
      invariant lengths == SpanLengths(functions[..i])
    {
      var func := functions[i];
      var start := func.start;
      var end: int;
      if func.endLineno.Some? {
        end := func.endLineno.value;
      } else {
        var lines := LinesOf(Walk(func));
        end := if lines == [] then start else Max(lines);
      }
      assert end - start + 1 == SpanLength(func);
      SpanLengthsSnoc(functions, i);
      lengths := lengths + [end - start + 1];
    }
    assert functions[..|functions|] == functions;
    assert lengths == SpanLengths(functions);
    assert FileResult(filePath, read, parse) == Success(Metrics(filePath, content, tree));
    r := Success(FileMetrics(
      BaseName(filePath),
      |SplitLines(content)|,
      |functions|,
      if |functions| > 0 then (Sum(lengths) as real) / (|lengths| as real) else 0.0,
      if |lengths| > 0 then Max(lengths) else 0));
  }

  /** What analyzing one path yields: the metrics, or the error that propagates. */
  function FileResult(path: string, read: string -> Option<string>, parse: string -> Option<Node>)
    : Result<FileMetrics, AnalysisError>
  {
    match read(path)
    case None => Failure(ReadError(path))
    case Some(content) =>
      match parse(content)
      case None => Failure(SyntaxError(path))
      case Some(tree) => Success(Metrics(path, content, tree))
  }

  // ---------------------------------------------------------------------
  // Folders
  // ---------------------------------------------------------------------

  /** One directory entry as listed: its name and whether it is a regular file. */
  datatype DirEntry = DirEntry(name: string, isFile: bool)

  /** The entries `analyze_folder` analyzes. */
  predicate IsPythonSource(e: DirEntry)
  {
    EndsWith(e.name, ".py") && e.isFile
  }

  /** The matching entries of a listing, in listing order. */
  function Matching(entries: seq<DirEntry>): seq<DirEntry>
  {
    if entries == [] then []
    else (if IsPythonSource(entries[0]) then [entries[0]] else []) + Matching(entries[1..])
  }

  /** Matching keeps exactly the ".py" regular files, in order, and splits over concatenation. */
  lemma {:induction false} MatchingKeepsPythonFilesInOrder(a: seq<DirEntry>, b: seq<DirEntry>)
    ensures Matching(a + b) == Matching(a) + Matching(b)
    ensures forall e :: e in Matching(a) <==> e in a && IsPythonSource(e)
    decreases |a|
  {
    if a == [] {
      assert a + b == b;
    } else {
      assert (a + b)[0] == a[0];
      assert (a + b)[1..] == a[1..] + b;
      MatchingKeepsPythonFilesInOrder(a[1..], b);
      assert a == [a[0]] + a[1..];
    }
  }

  /** Prepend already-collected records to a result. */
  function Prefixed(ms: seq<FileMetrics>, r: Result<seq<FileMetrics>, AnalysisError>)
    : Result<seq<FileMetrics>, AnalysisError>
  {
    match r
    case Success(rest) => Success(ms + rest)
    case Failure(e) => Failure(e)
  }

  lemma PrefixedAppend(ms: seq<FileMetrics>, m: FileMetrics, r: Result<seq<FileMetrics>, AnalysisError>)
    ensures Prefixed(ms, Prefixed([m], r)) == Prefixed(ms + [m], r)
  {
    if r.Success? {
      assert ms + ([m] + r.value) == (ms + [m]) + r.value;
    }
  }

  /** What `analyze_folder` yields: all records, or the first error. */
  function FolderResult(folder: string, entries: seq<DirEntry>,
                        read: string -> Option<string>, parse: string -> Option<Node>)
    : Result<seq<FileMetrics>, AnalysisError>
  {
    if entries == [] then Success([])
    else
      var rest := FolderResult(folder, entries[1..], read, parse);
      if IsPythonSource(entries[0]) then
        match FileResult(JoinPath(folder, entries[0].name), read, parse)
        case Failure(e) => Failure(e)
        case Success(m) => Prefixed([m], rest)
      else rest
  }

  /** `analyze_folder` succeeds exactly when every matching entry does. */
  lemma {:induction false} FolderSucceedsIffEveryFileDoes(
    folder: string, entries: seq<DirEntry>, read: string -> Option<string>, parse: string -> Option<Node>)
    ensures FolderResult(folder, entries, read, parse).Success? <==>
      forall e :: e in Matching(entries) ==> FileResult(JoinPath(folder, e.name), read, parse).Success?
    decreases |entries|
  {
    if entries != [] {
      FolderSucceedsIffEveryFileDoes(folder, entries[1..], read, parse);
    }
  }

  /** On success, one record per matching entry, in listing order. */
  lemma {:induction false} FolderRecordsFollowMatchingEntries(
    folder: string, entries: seq<DirEntry>, read: string -> Option<string>, parse: string -> Option<Node>)
    requires FolderResult(folder, entries, read, parse).Success?
    ensures var r := FolderResult(folder, entries, read, parse).value;
      var m := Matching(entries);
      |r| == |m| &&
      forall i :: 0 <= i < |m| ==> FileResult(JoinPath(folder, m[i].name), read, parse) == Success(r[i])
    decreases |entries|
  {
    if entries != [] {
      var e := entries[0];
      var tail := entries[1..];
      var rt := FolderResult(folder, tail, read, parse);
      if IsPythonSource(e) {
        var head := FileResult(JoinPath(folder, e.name), read, parse);
        assert head.Success? && rt.Success?;
        FolderRecordsFollowMatchingEntries(folder, tail, read, parse);
        ConsRecords(folder, e, tail, head.value, rt.value, read, parse);
      } else {
        assert Matching(entries) == Matching(tail);
        FolderRecordsFollowMatchingEntries(folder, tail, read, parse);
      }
    }
  }

  lemma ConsRecords(folder: string, e: DirEntry, tail: seq<DirEntry>, h: FileMetrics, rt: seq<FileMetrics>,
                    read: string -> Option<string>, parse: string -> Option<Node>)
    requires FileResult(JoinPath(folder, e.name), read, parse) == Success(h)
    requires var mt := Matching(tail);
      |rt| == |mt| &&
      forall i :: 0 <= i < |mt| ==> FileResult(JoinPath(folder, mt[i].name), read, parse) == Success(rt[i])
    ensures var m := [e] + Matching(tail);
      var r := [h] + rt;
      |r| == |m| &&
      forall i :: 0 <= i < |m| ==> FileResult(JoinPath(folder, m[i].name), read, parse) == Success(r[i])
  {
    var mt := Matching(tail);
    var m := [e] + mt;
    var r := [h] + rt;
    forall i | 0 <= i < |m|
      ensures FileResult(JoinPath(folder, m[i].name), read, parse) == Success(r[i])
    {
      if i > 0 {
        assert m[i] == mt[i - 1] && r[i] == rt[i - 1];
      }
    }
  }

  /** Each record is named after the entry it was made from. */
  lemma FolderRecordNamesAreEntryNames(
    folder: string, entries: seq<DirEntry>, read: string -> Option<string>, parse: string -> Option<Node>)
    requires forall i :: 0 <= i < |entries| ==> '/' !in entries[i].name
    requires FolderResult(folder, entries, read, parse).Success?
    ensures var r := FolderResult(folder, entries, read, parse).value;
      var m := Matching(entries);
      |r| == |m| && forall i :: 0 <= i < |m| ==> r[i].file == m[i].name
  {
    var r := FolderResult(folder, entries, read, parse).value;
    var m := Matching(entries);
    FolderRecordsFollowMatchingEntries(folder, entries, read, parse);
    MatchingKeepsPythonFilesInOrder(entries, []);
    forall i | 0 <= i < |m|
      ensures r[i].file == m[i].name
    {
      assert m[i] in entries;
      BaseNameOfJoin(folder, m[i].name);
    }
  }

  /** A listing without matching entries yields no records and no error. */
  lemma {:induction false} NoMatchingEntriesGiveNoRecords(
    folder: string, entries: seq<DirEntry>, read: string -> Option<string>, parse: string -> Option<Node>)
    requires Matching(entries) == []
    ensures FolderResult(folder, entries, read, parse) == Success([])
    decreases |entries|
  {
    if entries != [] {
      NoMatchingEntriesGiveNoRecords(folder, entries[1..], read, parse);
    }
  }

  /** A ".pyc" file or a directory named "pkg.py" yields nothing. */
  lemma OtherEntriesIgnored()
    ensures Matching([DirEntry("x.pyc", true), DirEntry("pkg.py", false), DirEntry("a.py", true)])
         == [DirEntry("a.py", true)]
  {
    var es := [DirEntry("x.pyc", true), DirEntry("pkg.py", false), DirEntry("a.py", true)];
    assert !EndsWith("x.pyc", ".py") by {
      assert "x.pyc"[2..] != ".py";
    }
    assert EndsWith("a.py", ".py") by {
      assert "a.py"[1..] == ".py";
    }
    assert es[1..] == [DirEntry("pkg.py", false), DirEntry("a.py", true)];
    assert es[1..][1..] == [DirEntry("a.py", true)];
    assert es[1..][1..][1..] == [];
  }

  /**
   * `analyze_folder`: walk the listing, keep names ending in ".py" that are
   * regular files, and analyze each in listing order; the first failure
   * aborts the whole folder.
   */
  method AnalyzeFolder(folderPath: string, listing: seq<DirEntry>,
                       read: string -> Option<string>, parse: string -> Option<Node>)
    returns (r: Result<seq<FileMetrics>, AnalysisError>)
    ensures r == FolderResult(folderPath, listing, read, parse)
  {
    var result: seq<FileMetrics> := [];
    assert listing[0..] == listing;
    assert Prefixed([], FolderResult(folderPath, listing, read, parse)) == FolderResult(folderPath, listing, read, parse) by {
      assert forall v: seq<FileMetrics> :: [] + v == v;
    }
    for i := 0 to |listing|
      invariant FolderResult(folderPath, listing, read, parse)
             == Prefixed(result, FolderResult(folderPath, listing[i..], read, parse))
    {
      var entry := listing[i];
      assert listing[i..][0] == entry && listing[i..][1..] == listing[i + 1..];
      if EndsWith(entry.name, ".py") {
        var fullPath := JoinPath(folderPath, entry.name);
        if entry.isFile {
          var m := AnalyzePythonFile(fullPath, read, parse);
          if m.Failure? {
            assert FolderResult(folderPath, listing[i..], read, parse) == Failure(m.error);
            return Failure(m.error);
          }
          PrefixedAppend(result, m.value, FolderResult(folderPath, listing[i + 1..], read, parse));
          result := result + [m.value];
        }
      }
    }
    assert listing[|listing|..] == [];
    assert result + [] == result;
    r := Success(result);
  }
}
