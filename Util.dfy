/** The small helpers of the utility package: number clamping, chunking,
    command-line option rendering, flattening, file-type guessing, whitespace
    mangling, in-place dictionary edits, tab-separated readers, indexed
    selection and memoization. */
module Util {
  import opened Wrappers
  import opened Text

  // ---------------------------------------------------------------------------
  // intatleast1

  /** Python's `int(x)` on a number: truncation toward zero. */
  function Trunc(x: real): (r: int)
    ensures x >= 0.0 ==> r as real <= x < r as real + 1.0
    ensures x < 0.0 ==> r as real - 1.0 < x <= r as real
  {
    if x >= 0.0 then x.Floor else -((-x).Floor)
  }

  /** `intatleast1(n)`: `int(n)`, but never below 1. */
  function IntAtLeast1(n: real): (r: int)
    ensures r >= 1
    ensures n >= 1.0 ==> r as real <= n < r as real + 1.0
    ensures n < 1.0 ==> r == 1
  {
    var t := Trunc(n);
    if t < 1 then 1 else t
  }

  // ---------------------------------------------------------------------------
  // partition

  function Pad<T>(pad: T, n: nat): (r: seq<T>)
    ensures |r| == n && forall k :: 0 <= k < n ==> r[k] == pad
  {
    seq(n, _ => pad)
  }

  function Concat<T>(xss: seq<seq<T>>): seq<T> {
    if xss == [] then [] else xss[0] + Concat(xss[1..])
  }

  lemma {:induction false} ConcatAppend<T>(xss: seq<seq<T>>, yss: seq<seq<T>>)
    ensures Concat(xss + yss) == Concat(xss) + Concat(yss)
  {
    if xss != [] {
      assert (xss + yss)[0] == xss[0];
      assert (xss + yss)[1..] == xss[1..] + yss;
      ConcatAppend(xss[1..], yss);
    } else {
      assert xss + yss == yss;
    }
  }

  /** `partition(it, binsize, pad)`: `izip_longest` over `binsize` copies of one
      iterator, i.e. consecutive chunks of `binsize` elements, the last one padded. */
  function Partition<T>(s: seq<T>, binsize: int, pad: T): (r: seq<seq<T>>)
    ensures binsize <= 0 ==> r == []
    ensures binsize >= 1 ==> (|r| - 1) * binsize < |s| <= |r| * binsize
    ensures forall i :: 0 <= i < |r| ==> |r[i]| == binsize
    ensures binsize >= 1 ==> |s| <= |Concat(r)| < |s| + binsize
    ensures binsize >= 1 ==> Concat(r) == s + Pad(pad, |Concat(r)| - |s|)
    decreases |s|
  {
    if binsize <= 0 || s == [] then []
    else if |s| <= binsize then
      var r := [s + Pad(pad, binsize - |s|)];
      PartitionLast(s, binsize, pad, r);
      r
    else
      var rest := Partition(s[binsize..], binsize, pad);
      var r := [s[..binsize]] + rest;
      PartitionCons(s, binsize, pad, rest, r);
      r
  }

  /** What is left fits in one padded chunk. */
  lemma PartitionLast<T>(s: seq<T>, b: int, pad: T, r: seq<seq<T>>)
    requires 1 <= |s| <= b && r == [s + Pad(pad, b - |s|)]
    ensures (|r| - 1) * b < |s| <= |r| * b
    ensures forall i :: 0 <= i < |r| ==> |r[i]| == b
    ensures |s| <= |Concat(r)| < |s| + b
    ensures Concat(r) == s + Pad(pad, |Concat(r)| - |s|)
  {
    assert Concat(r) == s + Pad(pad, b - |s|);
  }

  /** The first chunk in front of the chunks of the rest is a partition of the whole. */
  lemma PartitionCons<T>(s: seq<T>, b: int, pad: T, rest: seq<seq<T>>, r: seq<seq<T>>)
    requires 1 <= b < |s| && r == [s[..b]] + rest
    requires (|rest| - 1) * b < |s[b..]| <= |rest| * b
    requires forall i :: 0 <= i < |rest| ==> |rest[i]| == b
    requires |s[b..]| <= |Concat(rest)| < |s[b..]| + b
    requires Concat(rest) == s[b..] + Pad(pad, |Concat(rest)| - |s[b..]|)
    ensures (|r| - 1) * b < |s| <= |r| * b
    ensures forall i :: 0 <= i < |r| ==> |r[i]| == b
    ensures |s| <= |Concat(r)| < |s| + b
    ensures Concat(r) == s + Pad(pad, |Concat(r)| - |s|)
  {
    assert forall i :: 1 <= i < |r| ==> r[i] == rest[i - 1];
    ChunkCountStep(|rest|, b, |s|);
    PartitionConcat(s, b, pad, rest, r);
  }

  /** One more chunk covers `binsize` more elements. */
  lemma ChunkCountStep(n: nat, b: int, m: int)
    requires b >= 1 && (n - 1) * b < m - b <= n * b
    ensures (n + 1 - 1) * b < m <= (n + 1) * b
  {
    assert (n + 1) * b == n * b + b;
    assert (n - 1) * b == n * b - b;
  }

  /** Putting the first chunk in front of the others' concatenation. */
  lemma PartitionConcat<T>(s: seq<T>, b: int, pad: T, rest: seq<seq<T>>, r: seq<seq<T>>)
    requires 1 <= b < |s| && r == [s[..b]] + rest
    requires |s| - b <= |Concat(rest)| && Concat(rest) == s[b..] + Pad(pad, |Concat(rest)| - (|s| - b))
    ensures Concat(r) == s[..b] + Concat(rest)
    ensures |Concat(r)| == b + |Concat(rest)|
    ensures Concat(r) == s + Pad(pad, |Concat(r)| - |s|)
  {
    assert r[0] == s[..b] && r[1..] == rest;
    var p := Pad(pad, |Concat(rest)| - (|s| - b));
    assert s[..b] + (s[b..] + p) == s[..b] + s[b..] + p;
    assert s[..b] + s[b..] == s;
  }

  // ---------------------------------------------------------------------------
  // dict_to_cmd_opts_iter, dict_to_cmd_opts

  /** The option values the renderer distinguishes; `PySeq` is a list or a tuple. */
  datatype PyValue = PyNone | PyBool(b: bool) | PyInt(i: int) | PyStr(s: string) | PySeq(items: seq<PyValue>)

  /** `--key=value` for a key longer than one character, `-k value` otherwise. */
  function KeyValue(key: string, value: string): string {
    if |key| > 1 then "--" + key + "=" + value else "-" + key + " " + value
  }

  /** The bare flag for `True`. */
  function Flag(key: string): string {
    if |key| > 1 then "--" + key else "-" + key
  }

  /** `str(val)` for the scalar values that reach it. */
  function ScalarText(v: PyValue): string
    requires !v.PyBool? && !v.PySeq?
  {
    match v
    case PyNone => "None"
    case PyInt(i) => IntToString(i)
    case PyStr(s) => s
  }

  /** One element of a list value: the source concatenates it unconverted, so
      anything but a string raises TypeError. */
  function SeqOptions(key: string, items: seq<PyValue>): (r: Result<seq<string>>)
    ensures r.Ok? <==> forall k :: 0 <= k < |items| ==> items[k].PyStr?
    ensures r.Ok? ==> |r.value| == |items| && forall k :: 0 <= k < |items| ==> r.value[k] == KeyValue(key, items[k].s)
  {
    if items == [] then Ok([])
    else if !items[0].PyStr? then Crash("TypeError: cannot concatenate 'str' and non-str objects")
    else match SeqOptions(key, items[1..])
      case Crash(m) => Crash(m)
      case Ok(rest) => Ok([KeyValue(key, items[0].s)] + rest)
  }

  /** The options one dictionary entry renders to. The test `val is False or None`
      reads `(val is False) or None`, so only `False` is skipped and `None` is
      rendered as the text `None`. */
  function EntryOptions(key: string, val: PyValue): (r: Result<seq<string>>)
    ensures val == PyBool(false) ==> r == Ok([])
    ensures val == PyBool(true) ==> r == Ok([Flag(key)])
    ensures val == PyNone ==> r == Ok([KeyValue(key, "None")])
    ensures val.PyInt? ==> r == Ok([KeyValue(key, IntToString(val.i))])
    ensures val.PyStr? ==> r == Ok([KeyValue(key, val.s)])
    ensures val.PySeq? ==> r.Ok? == (forall k :: 0 <= k < |val.items| ==> val.items[k].PyStr?)
  {
    match val
    case PyBool(b) => if b then Ok([Flag(key)]) else Ok([])
    case PySeq(items) => SeqOptions(key, items)
    case _ => Ok([KeyValue(key, ScalarText(val))])
  }

  /** `dict_to_cmd_opts_iter` with the default separators and dashes, over the
      dictionary's entries in iteration order. */
  function DictToCmdOptsIter(opts: seq<(string, PyValue)>): (r: Result<seq<string>>)
    ensures r.Ok? <==> forall k :: 0 <= k < |opts| ==> EntryOptions(opts[k].0, opts[k].1).Ok?
  {
    if opts == [] then Ok([])
    else match EntryOptions(opts[0].0, opts[0].1)
      case Crash(m) => Crash(m)
      case Ok(first) =>
        match DictToCmdOptsIter(opts[1..])
        case Crash(m) => Crash(m)
        case Ok(rest) => Ok(first + rest)
  }

  /** Rendering two dictionaries' entries one after the other renders each in turn. */
  lemma {:induction false} DictToCmdOptsIterAppend(a: seq<(string, PyValue)>, b: seq<(string, PyValue)>)
    requires DictToCmdOptsIter(a).Ok? && DictToCmdOptsIter(b).Ok?
    ensures DictToCmdOptsIter(a + b) == Ok(DictToCmdOptsIter(a).value + DictToCmdOptsIter(b).value)
  {
    if a != [] {
      HeadOfAppend(a, b);
      var first := EntryOptions(a[0].0, a[0].1).value;
      DictToCmdOptsIterAppend(a[1..], b);
      var x, y := DictToCmdOptsIter(a[1..]).value, DictToCmdOptsIter(b).value;
      IterHead(a);
      IterHead(a + b);
      AppendAssoc(first, x, y);
    } else {
      assert a + b == b;
      assert DictToCmdOptsIter(a).value + DictToCmdOptsIter(b).value == DictToCmdOptsIter(b).value;
    }
  }

  /** One step of `DictToCmdOptsIter` on a non-empty dictionary that renders. */
  lemma IterHead(opts: seq<(string, PyValue)>)
    requires opts != [] && EntryOptions(opts[0].0, opts[0].1).Ok? && DictToCmdOptsIter(opts[1..]).Ok?
    ensures DictToCmdOptsIter(opts) == Ok(EntryOptions(opts[0].0, opts[0].1).value + DictToCmdOptsIter(opts[1..]).value)
  {
  }

  /** `dict_to_cmd_opts`: the options joined by single spaces. */
  function DictToCmdOpts(opts: seq<(string, PyValue)>): (r: Result<string>)
    ensures r.Ok? <==> DictToCmdOptsIter(opts).Ok?
  {
    match DictToCmdOptsIter(opts)
    case Crash(m) => Crash(m)
    case Ok(parts) => Ok(Join(parts, " "))
  }

  /** The rendered command line of two dictionaries is the two command lines with one space between. */
  lemma DictToCmdOptsAppend(a: seq<(string, PyValue)>, b: seq<(string, PyValue)>)
    requires DictToCmdOptsIter(a).Ok? && DictToCmdOptsIter(b).Ok?
    requires DictToCmdOptsIter(a).value != [] && DictToCmdOptsIter(b).value != []
    ensures DictToCmdOpts(a + b) == Ok(DictToCmdOpts(a).value + " " + DictToCmdOpts(b).value)
  {
    DictToCmdOptsIterAppend(a, b);
    JoinAppend(DictToCmdOptsIter(a).value, DictToCmdOptsIter(b).value, " ");
  }

  // ---------------------------------------------------------------------------
  // generator_flatten

  /** A value that `generator_flatten` either passes through (`Leaf`) or descends
      into (`Nested`: a list, a tuple or a generator). */
  datatype Item<T> = Leaf(value: T) | Nested(items: seq<Item<T>>)

  function GeneratorFlatten<T>(s: seq<Item<T>>): (r: seq<Item<T>>)
    ensures forall k :: 0 <= k < |r| ==> r[k].Leaf?
    decreases s
  {
    if s == [] then []
    else
      (match s[0]
       case Leaf(_) => [s[0]]
       case Nested(xs) => GeneratorFlatten(xs))
      + GeneratorFlatten(s[1..])
  }

  /** Flattening works item by item, left to right. */
  lemma {:induction false} GeneratorFlattenAppend<T>(a: seq<Item<T>>, b: seq<Item<T>>)
    ensures GeneratorFlatten(a + b) == GeneratorFlatten(a) + GeneratorFlatten(b)
  {
    if a != [] {
      assert (a + b)[0] == a[0];
      assert (a + b)[1..] == a[1..] + b;
      GeneratorFlattenAppend(a[1..], b);
    } else {
      assert a + b == b;
    }
  }

  /** A nested list, tuple or generator is replaced by its own flattened items,
      in place: together with `GeneratorFlattenLeaf` and the empty case this
      determines the result, the in-order sequence of leaves. */
  lemma {:induction false} GeneratorFlattenNested<T>(xs: seq<Item<T>>, rest: seq<Item<T>>)
    ensures GeneratorFlatten([Nested(xs)] + rest) == GeneratorFlatten(xs) + GeneratorFlatten(rest)
  {
    var s := [Nested(xs)] + rest;
    assert s[0] == Nested(xs) && s[1..] == rest;
  }

  /** A leaf is passed through, ahead of what follows it. */
  lemma {:induction false} GeneratorFlattenLeaf<T>(v: T, rest: seq<Item<T>>)
    ensures GeneratorFlatten([Leaf(v)] + rest) == [Leaf(v)] + GeneratorFlatten(rest)
  {
    var s := [Leaf(v)] + rest;
    assert s[0] == Leaf(v) && s[1..] == rest;
  }

  /** A sequence of leaves is passed through unchanged, so flattening twice is flattening once. */
  lemma {:induction false} GeneratorFlattenLeaves<T>(s: seq<Item<T>>)
    requires forall k :: 0 <= k < |s| ==> s[k].Leaf?
    ensures GeneratorFlatten(s) == s
  {
    if s != [] {
      GeneratorFlattenLeaves(s[1..]);
    }
  }

  lemma GeneratorFlattenIdempotent<T>(s: seq<Item<T>>)
    ensures GeneratorFlatten(GeneratorFlatten(s)) == GeneratorFlatten(s)
  {
    GeneratorFlattenLeaves(GeneratorFlatten(s));
  }

  // ---------------------------------------------------------------------------
  // guess_seq_filetype

  datatype SeqFileType = Fastq | Fasta | Sff | Bam | Sam

  /** `os.path.split(p)[-1]`: the text after the last `/`. */
  function Basename(p: string): (r: string)
    ensures '/' !in r
    ensures EndsWith(p, r)
    ensures |r| < |p| ==> p[|p| - |r| - 1] == '/'
  {
    if p == [] || p[|p| - 1] == '/' then []
    else
      var r := Basename(p[..|p| - 1]) + [p[|p| - 1]];
      assert p[..|p| - 1][|p| - 1 - (|r| - 1)..] + [p[|p| - 1]] == p[|p| - |r|..];
      r
  }

  /** Only the last component of a path is ever looked at. */
  lemma BasenameOfJoin(dir: string, name: string)
    requires '/' !in name
    ensures Basename(dir + "/" + name) == name
  {
    var p := dir + "/" + name;
    var r := Basename(p);
    assert p[|dir|] == '/';
    assert forall k :: 0 <= k < |name| ==> p[|dir| + 1 + k] == name[k];
    assert |r| == |name|;
    assert p[|p| - |name|..] == name;
  }

  /** Where the regular expression `$` can match: at the end, or before a final newline. */
  predicate AtEnd(s: string, k: nat) {
    k == |s| || (k + 1 == |s| && s[k] == '\n')
  }

  /** The tail `(\.gz|\.bz2)?$` matches at `k`. */
  predicate CompressedEnd(s: string, k: nat)
    requires k <= |s|
  {
    || AtEnd(s, k)
    || (StartsWith(s[k..], ".gz") && AtEnd(s, k + 3))
    || (StartsWith(s[k..], ".bz2") && AtEnd(s, k + 4))
  }

  /** `re.search(r'\.f.*c(\.gz|\.bz2)?$', s)`: a dot, an `f`, any run of characters
      other than a newline, the letter `c`, an optional compression suffix, the end. */
  predicate MatchesDotFEnd(s: string, c: char) {
    exists i, j :: 0 <= i < |s| && 0 <= j < |s| && MatchAt(s, i, j, c)
  }

  /** The pattern matches with the dot at `i` and the letter `c` at `j`. */
  predicate MatchAt(s: string, i: nat, j: nat, c: char) {
    DotFAt(s, i) && TailAt(s, i + 2, j, c)
  }

  predicate DotFAt(s: string, i: nat) {
    i + 1 < |s| && s[i] == '.' && s[i + 1] == 'f'
  }

  /** `.*c(\.gz|\.bz2)?$` matches `s[k..]`, with the `.*` covering `s[k..j]`. */
  predicate TailAt(s: string, k: nat, j: nat, c: char) {
    k <= j < |s| && '\n' !in s[k..j] && s[j] == c && CompressedEnd(s, j + 1)
  }

  /** A left-to-right scan for the tail, trying every end of the `.*` in turn. */
  predicate ScanTail(s: string, j: nat, c: char)
    decreases |s| - j
  {
    j < |s| && ((s[j] == c && CompressedEnd(s, j + 1)) || (s[j] != '\n' && ScanTail(s, j + 1, c)))
  }

  /** A left-to-right scan for the whole pattern, trying every start in turn. */
  predicate ScanDotFEnd(s: string, i: nat, c: char)
    decreases |s| - i
  {
    i + 1 < |s| && ((DotFAt(s, i) && ScanTail(s, i + 2, c)) || ScanDotFEnd(s, i + 1, c))
  }

  lemma {:induction false} ScanTailCorrect(s: string, k: nat, j: nat, c: char)
    requires k <= j <= |s|
    requires '\n' !in s[k..j]
    ensures ScanTail(s, j, c) <==> exists e :: TailAt(s, k, e, c) && j <= e
    decreases |s| - j
  {
    if j < |s| {
      if s[j] == c && CompressedEnd(s, j + 1) {
        assert TailAt(s, k, j, c);
      } else if s[j] != '\n' {
        assert s[k..j + 1] == s[k..j] + [s[j]];
        ScanTailCorrect(s, k, j + 1, c);
        if e :| TailAt(s, k, e, c) && j <= e {
          assert e != j;
        }
      }
    }
  }

  lemma {:induction false} ScanDotFEndCorrect(s: string, i: nat, c: char)
    ensures ScanDotFEnd(s, i, c) <==> exists i', j :: i <= i' && MatchAt(s, i', j, c)
    decreases |s| - i
  {
    if i + 1 < |s| {
      assert '\n' !in s[i + 2..i + 2];
      ScanTailCorrect(s, i + 2, i + 2, c);
      ScanDotFEndCorrect(s, i + 1, c);
      if DotFAt(s, i) && ScanTail(s, i + 2, c) {
        var e :| TailAt(s, i + 2, e, c) && i + 2 <= e;
        assert MatchAt(s, i, e, c);
      }
      if i', j :| i <= i' && MatchAt(s, i', j, c) {
        if i' == i {
          assert ScanTail(s, i + 2, c);
        } else {
          assert i + 1 <= i';
        }
      }
    }
  }

  /** The scan decides the regular expression. */
  lemma MatchesDotFEndByScan(s: string, c: char)
    ensures MatchesDotFEnd(s, c) <==> ScanDotFEnd(s, 0, c)
  {
    ScanDotFEndCorrect(s, 0, c);
  }

  /** `guess_seq_filetype`: on the last path component, the fastq pattern first, then
      the fasta pattern, then the `.sff`, `.bam` and `.sam` suffixes; `None` otherwise. */
  function GuessSeqFiletype(path: string): (r: Option<SeqFileType>)
  {
    GuessName(Basename(path))
  }

  /** The tests `guess_seq_filetype` makes on the last path component. */
  function GuessName(b: string): (r: Option<SeqFileType>)
  {
    if MatchesDotFEnd(b, 'q') then Some(Fastq)
    else if MatchesDotFEnd(b, 'a') then Some(Fasta)
    else if EndsWith(b, ".sff") then Some(Sff)
    else if EndsWith(b, ".bam") then Some(Bam)
    else if EndsWith(b, ".sam") then Some(Sam)
    else None
  }

  /** The directory part never changes the guess. */
  lemma GuessSeqFiletypeBasename(dir: string, name: string)
    requires '/' !in name
    ensures GuessSeqFiletype(dir + "/" + name) == GuessSeqFiletype(name)
  {
    BasenameOfJoin(dir, name);
    assert Basename(name) == name by {
      BasenameOfJoin("", name);
      assert Basename(name) == Basename(name);
    }
  }

  /** Without an `f` there is no `.f` for either pattern to start at. */
  lemma NoMatchWithoutF(s: string, c: char)
    requires 'f' !in s
    ensures !MatchesDotFEnd(s, c)
  {
  }

  /** Without the final letter there is nothing for the pattern to end at. */
  lemma NoMatchWithoutLetter(s: string, c: char)
    requires c !in s
    ensures !MatchesDotFEnd(s, c)
  {
  }

  /** What a match leaves at the end of the text: the letter itself, a newline,
      or the last letter of `.gz` or `.bz2`. */
  lemma MatchLastChar(s: string, i: nat, j: nat, c: char)
    requires MatchAt(s, i, j, c)
    ensures s[|s| - 1] in [c, '\n', 'z', '2']
  {
    var k := j + 1;
    if AtEnd(s, k) {
      assert k == |s| || s[|s| - 1] == '\n';
    } else if StartsWith(s[k..], ".gz") && AtEnd(s, k + 3) {
      assert s[k..][2] == 'z' && s[k + 2] == 'z';
      assert k + 3 == |s| || s[|s| - 1] == '\n';
    } else {
      assert StartsWith(s[k..], ".bz2") && AtEnd(s, k + 4);
      assert s[k..][3] == '2' && s[k + 3] == '2';
      assert k + 4 == |s| || s[|s| - 1] == '\n';
    }
  }

  /** A name ending in `a` is never taken for fastq. */
  lemma NoFastqEndingA(s: string)
    requires s != [] && s[|s| - 1] == 'a'
    ensures !MatchesDotFEnd(s, 'q')
  {
    if i, j :| 0 <= i < |s| && 0 <= j < |s| && MatchAt(s, i, j, 'q') {
      MatchLastChar(s, i, j, 'q');
    }
  }

  /** A stem followed by a suffix: a character in neither part is in neither
      the whole. */
  lemma StemSuffix(stem: string, sfx: string, x: char)
    requires x !in stem && x !in sfx
    ensures x !in stem + sfx
  {
    assert forall k :: 0 <= k < |stem + sfx| ==> (stem + sfx)[k] in stem || (stem + sfx)[k] in sfx;
  }

  /** The guess on a path is the guess on its slash-free last component,
      whatever the directory. */
  lemma GuessOfJoin(dir: string, stem: string, sfx: string)
    requires '/' !in stem && '/' !in sfx
    ensures GuessSeqFiletype(dir + "/" + stem + sfx) == GuessName(stem + sfx)
  {
    StemSuffix(stem, sfx, '/');
    assert dir + "/" + stem + sfx == dir + "/" + (stem + sfx);
    BasenameOfJoin(dir, stem + sfx);
  }

  /** A stem then `.f<mid><c><z>`, with `z` empty or a compression suffix,
      matches with the dot right after the stem. */
  lemma DotFMatch(stem: string, sfx: string, mid: string, c: char, z: string)
    requires sfx == ".f" + mid + [c] + z
    requires '\n' !in mid && (z == [] || z == ".gz" || z == ".bz2")
    ensures MatchesDotFEnd(stem + sfx, c)
  {
    var s := stem + sfx;
    var n := |stem|;
    var j := n + 2 + |mid|;
    assert s[n] == '.' && s[n + 1] == 'f' && s[j] == c;
    assert s[n + 2..j] == mid;
    assert s[j + 1..] == z;
    assert MatchAt(s, n, j, c);
  }

  /** Properties of the guess on names built from a stem and a suffix. A
      `.fastq.gz` file is fastq. */
  lemma GuessSeqFiletypeFastqGz(dir: string, stem: string)
    requires '/' !in stem
    ensures GuessSeqFiletype(dir + "/" + stem + ".fastq.gz") == Some(Fastq)
  {
    GuessOfJoin(dir, stem, ".fastq.gz");
    CompressedSuffixes();
    DotFMatch(stem, ".fastq.gz", "ast", 'q', ".gz");
  }

  /** Any `.f`, then characters other than a newline, then a final `a`, makes
      the guess fasta: the fastq pattern cannot match there. */
  lemma GuessSeqFiletypeLoose(dir: string, stem: string, mid: string)
    requires '/' !in stem && '/' !in mid && '\n' !in mid
    ensures GuessSeqFiletype(dir + "/" + stem + ".f" + mid + "a") == Some(Fasta)
  {
    var sfx := ".f" + mid + "a";
    LooseSuffix(dir, stem, mid, sfx);
    GuessOfJoin(dir, stem, sfx);
    DotFMatch(stem, sfx, mid, 'a', []);
    NoFastqEndingA(stem + sfx);
  }

  /** The pieces of the path in `GuessSeqFiletypeLoose`. */
  lemma LooseSuffix(dir: string, stem: string, mid: string, sfx: string)
    requires sfx == ".f" + mid + "a" && '/' !in mid
    ensures '/' !in sfx && sfx == ".f" + mid + ['a'] + []
    ensures dir + "/" + stem + ".f" + mid + "a" == dir + "/" + stem + sfx
    ensures (stem + sfx)[|stem + sfx| - 1] == 'a'
  {
    StemSuffix(".f", mid + "a", '/');
    assert ".f" + (mid + "a") == sfx;
  }

  /** A compressed `.fna.gz` file is fasta when the stem has no `q` to end a
      fastq match. */
  lemma GuessSeqFiletypeFasta(dir: string, stem: string)
    requires '/' !in stem && 'q' !in stem
    ensures GuessSeqFiletype(dir + "/" + stem + ".fna.gz") == Some(Fasta)
  {
    GuessOfJoin(dir, stem, ".fna.gz");
    StemSuffix(stem, ".fna.gz", 'q');
    NoMatchWithoutLetter(stem + ".fna.gz", 'q');
    CompressedSuffixes();
    DotFMatch(stem, ".fna.gz", "n", 'a', ".gz");
  }

  /** The two compressed suffixes of the worked cases, in pieces. */
  lemma CompressedSuffixes()
    ensures ".fastq.gz" == ".f" + "ast" + ['q'] + ".gz"
    ensures ".fna.gz" == ".f" + "n" + ['a'] + ".gz"
  {
  }

  /** A name with no `f` and an unknown suffix has no guess. */
  lemma GuessSeqFiletypeNoMatch(dir: string, stem: string)
    requires '/' !in stem && 'f' !in stem
    ensures GuessSeqFiletype(dir + "/" + stem + ".txt") == None
  {
    GuessOfJoin(dir, stem, ".txt");
    var b := stem + ".txt";
    StemSuffix(stem, ".txt", 'f');
    NoMatchWithoutF(b, 'q');
    NoMatchWithoutF(b, 'a');
    OtherSuffix(stem, ".txt", ".sff");
    OtherSuffix(stem, ".txt", ".bam");
    OtherSuffix(stem, ".txt", ".sam");
  }

  /** A name ending in one suffix does not end in another of the same length. */
  lemma OtherSuffix(stem: string, sfx: string, other: string)
    requires |other| == |sfx| && other != sfx
    ensures !EndsWith(stem + sfx, other)
  {
    assert (stem + sfx)[|stem|..] == sfx;
  }

  /** A `.sam` file is sam in any directory, even one whose name looks like
      fastq, since only the last component is looked at. */
  lemma GuessSeqFiletypeSamInFastqDir(dir: string, stem: string)
    requires '/' !in stem && 'f' !in stem
    ensures GuessSeqFiletype(dir + "/" + stem + ".sam") == Some(Sam)
  {
    GuessOfJoin(dir, stem, ".sam");
    var b := stem + ".sam";
    StemSuffix(stem, ".sam", 'f');
    NoMatchWithoutF(b, 'q');
    NoMatchWithoutF(b, 'a');
    OtherSuffix(stem, ".sam", ".sff");
    OtherSuffix(stem, ".sam", ".bam");
    assert b[|stem|..] == ".sam";
  }

  // ---------------------------------------------------------------------------
  // underscore and the map-file header mangle

  /** `re.sub(r'\s+', '_', s)`: every maximal run of whitespace becomes one `_`. */
  function Underscore(s: string): (r: string)
    ensures NoSpace(r)
    ensures NoSpace(s) ==> r == s
    decreases |s|
  {
    if s == [] then []
    else if IsSpace(s[0]) then "_" + Underscore(LStrip(s))
    else [s[0]] + Underscore(s[1..])
  }

  /** `underscore` adds no character other than `_`. */
  lemma {:induction false} UnderscoreChars(s: string, c: char)
    requires c != '_' && c !in s
    ensures c !in Underscore(s)
    decreases |s|
  {
    if s != [] {
      if IsSpace(s[0]) {
        UnderscoreChars(LStrip(s), c);
      } else {
        assert c !in s[1..];
        UnderscoreChars(s[1..], c);
      }
    }
  }

  lemma {:induction false} UnderscoreWord(w: string, t: string)
    requires NoSpace(w)
    ensures Underscore(w + t) == w + Underscore(t)
  {
    if w == [] {
      assert w + t == t;
    } else {
      HeadOfAppend(w, t);
      assert !IsSpace(w[0]);
      assert Underscore(w + t) == [w[0]] + Underscore(w[1..] + t);
      assert NoSpace(w[1..]) by {
        assert forall k :: 0 <= k < |w| - 1 ==> w[1..][k] == w[k + 1];
      }
      UnderscoreWord(w[1..], t);
      HeadOfAppend(w, Underscore(t));
    }
  }

  /** A run of whitespace, however long, becomes a single `_`. */
  lemma UnderscoreRun(g: string, t: string)
    requires g != [] && AllSpace(g) && (t == [] || !IsSpace(t[0]))
    ensures Underscore(g + t) == "_" + Underscore(t)
  {
    assert (g + t)[0] == g[0];
    LStripSpaces(g, t);
  }

  /** What is left of a stripped string after its first word: whitespace, then a
      stripped remainder that `underscore` and `split` both see past the gap. */
  lemma StrippedTail(rest: string)
    requires rest != [] && IsSpace(rest[0]) && !IsSpace(rest[|rest| - 1])
    ensures var t := LStrip(rest);
      |t| < |rest| && t != [] && Stripped(t) &&
      Underscore(rest) == "_" + Underscore(t) && SplitWs(rest) == SplitWs(t)
  {
    var t := LStrip(rest);
    assert t != [] && t[|t| - 1] == rest[|rest| - 1];
    SplitWsLStrip(rest);
  }

  /** On a stripped string, `underscore` is `"_".join(s.split())`. */
  lemma {:induction false} UnderscoreIsJoinOfWords(s: string)
    requires Stripped(s)
    ensures Underscore(s) == Join(SplitWs(s), "_")
    decreases |s|
  {
    if s != [] {
      var rest := FirstWord(s);
      if rest != [] {
        assert rest[|rest| - 1] == s[|s| - 1];
        StrippedTail(rest);
        UnderscoreIsJoinOfWords(LStrip(rest));
        UnderscoreJoinStep(s[..|s| - |rest|], rest);
      }
    }
  }

  /** The inductive step: a word, a gap, and a remainder whose underscored
      form is already the join of its words. */
  lemma UnderscoreJoinStep(w: string, rest: string)
    requires rest != []
    requires Underscore(rest) == "_" + Underscore(LStrip(rest)) && SplitWs(rest) == SplitWs(LStrip(rest))
    requires SplitWs(rest) != []
    requires Underscore(LStrip(rest)) == Join(SplitWs(LStrip(rest)), "_")
    ensures w + Underscore(rest) == Join([w] + SplitWs(rest), "_")
  {
    JoinCons(w, SplitWs(rest), "_");
  }

  /** A string that starts with a word is that word, then what follows. */
  lemma FirstWord(s: string) returns (rest: string)
    requires s != [] && !IsSpace(s[0])
    ensures |rest| < |s| && rest == s[|s| - |rest|..]
    ensures rest == [] || IsSpace(rest[0])
    ensures SplitWs(s) == [s[..|s| - |rest|]] + SplitWs(rest)
    ensures Underscore(s) == s[..|s| - |rest|] + Underscore(rest)
  {
    var j := WordEnd(s, 0);
    var w := s[..j];
    rest := s[j..];
    assert s == w + rest;
    UnderscoreWord(w, rest);
  }

  lemma JoinCons(w: string, xs: seq<string>, sep: string)
    requires xs != []
    ensures Join([w] + xs, sep) == w + sep + Join(xs, sep)
  {
    assert ([w] + xs)[1..] == xs;
  }

  /** The mangle applied to each header field of a map file: strip, drop every `#`,
      then turn whitespace runs into `_`. */
  function Mangle(field: string): (r: string)
    ensures NoSpace(r) && '#' !in r
  {
    var x := RemoveChar(Strip(field), '#');
    UnderscoreChars(x, '#');
    Underscore(x)
  }

  lemma MangleOfStripped(p: string, f: string)
    requires NoSpace(f) && '#' !in f
    requires Strip(p) == f || Strip(p) == "#" + f
    ensures Mangle(p) == f
  {
    assert RemoveChar(Strip(p), '#') == f by {
      RemoveCharAbsent(f, '#');
      if Strip(p) != f {
        assert Strip(p) == ['#'] + f;
        RemoveCharCons('#', f, '#');
      }
    }
    MangleVia(p, f);
  }

  /** A clean name (no whitespace, no `#`) survives the mangle. */
  lemma MangleClean(f: string)
    requires NoSpace(f) && '#' !in f
    ensures Mangle(f) == f && Mangle(f + "\n") == f
  {
    assert Stripped(f);
    assert AllSpace("\n");
    StripTrailingSpace(f, "");
    assert f + "" == f;
    StripTrailingSpace(f, "\n");
    MangleOfStripped(f, f);
    MangleOfStripped(f + "\n", f);
  }

  /** The same with the `#` that starts a header line in front. */
  lemma MangleHashClean(f: string)
    requires NoSpace(f) && '#' !in f
    ensures Mangle("#" + f) == f && Mangle("#" + f + "\n") == f
  {
    var h := "#" + f;
    assert Stripped(h) by {
      assert h[0] == '#';
      assert f != [] ==> h[|h| - 1] == f[|f| - 1];
    }
    assert AllSpace("\n");
    StripTrailingSpace(h, "");
    assert h + "" == h;
    StripTrailingSpace(h, "\n");
    MangleOfStripped(h, f);
    MangleOfStripped(h + "\n", f);
  }

  /** The mangle of a field whose stripped form loses its `#`s to `x`. */
  lemma MangleVia(p: string, x: string)
    requires RemoveChar(Strip(p), '#') == x
    ensures Mangle(p) == Underscore(x)
  {
  }

  lemma StrippedHashGap(h: string, g: string, f: string)
    requires f != [] && NoSpace(f) && g == [' '] + f && h == ['#'] + g
    ensures Strip(h) == h
  {
    assert Stripped(h) by {
      assert h[0] == '#';
      assert h[|h| - 1] == f[|f| - 1];
    }
    StripTrailingSpace(h, "");
    assert h + "" == h;
  }

  lemma MangleHashGap(h: string, g: string, f: string)
    requires f != [] && NoSpace(f) && '#' !in f
    requires g == [' '] + f && h == ['#'] + g
    ensures Mangle(h) == "_" + f
  {
    assert Underscore(g) == "_" + f by {
      assert AllSpace([' ']);
      UnderscoreRun([' '], f);
    }
    assert RemoveChar(Strip(h), '#') == g by {
      StrippedHashGap(h, g, f);
      RemoveCharAbsent(g, '#');
      RemoveCharCons('#', g, '#');
    }
    MangleVia(h, g);
  }

  /** A space after the `#` (as in `# SampleID`) survives as a leading underscore. */
  lemma MangleHashSpace(f: string)
    requires f != [] && NoSpace(f) && '#' !in f
    ensures Mangle("# " + f) == "_" + f
  {
    MangleHashGap("# " + f, " " + f, f);
  }

  // ---------------------------------------------------------------------------
  // The reading scheme of deserialize_csv and deserialize_map_file: go through the
  // lines, skip some, raise at the first bad one, convert the others.

  /** What a reader yields before it stops, and the number of the line it raised on. */
  datatype Read<R> = Read(items: seq<R>, raisedAt: Option<nat>)

  /** The reader from the line numbered `n` on. */
  function ReadFrom<L, R>(lines: seq<L>, n: nat, skip: L -> bool, bad: L -> bool, conv: L -> R): (r: Read<R>)
    ensures r.raisedAt.Some? ==> n <= r.raisedAt.value < n + |lines|
  {
    if lines == [] then Read([], None)
    else
      var rest := ReadFrom(lines[1..], n + 1, skip, bad, conv);
      if skip(lines[0]) then rest
      else if bad(lines[0]) then Read([], Some(n))
      else Read([conv(lines[0])] + rest.items, rest.raisedAt)
  }

  /** The converted lines that are not skipped, in order. */
  function Converted<L, R>(lines: seq<L>, skip: L -> bool, conv: L -> R): seq<R> {
    if lines == [] then []
    else (if skip(lines[0]) then [] else [conv(lines[0])]) + Converted(lines[1..], skip, conv)
  }

  /** How many lines the reader gets through: all of them, or those before the bad one. */
  function ReadStop<L, R>(lines: seq<L>, n: nat, skip: L -> bool, bad: L -> bool, conv: L -> R): (k: nat)
    ensures k <= |lines|
  {
    var r := ReadFrom(lines, n, skip, bad, conv);
    if r.raisedAt.Some? then r.raisedAt.value - n else |lines|
  }

  lemma ReadStopStep<L, R>(lines: seq<L>, n: nat, skip: L -> bool, bad: L -> bool, conv: L -> R)
    requires lines != []
    ensures !skip(lines[0]) && bad(lines[0]) ==> ReadStop(lines, n, skip, bad, conv) == 0
    ensures skip(lines[0]) || !bad(lines[0]) ==>
      ReadStop(lines, n, skip, bad, conv) == ReadStop(lines[1..], n + 1, skip, bad, conv) + 1
  {
  }

  /** The reader raises on a line it does not skip and finds bad, ... */
  lemma {:induction false} ReadRaisesOnBad<L, R>(lines: seq<L>, n: nat, skip: L -> bool, bad: L -> bool, conv: L -> R)
    ensures var k := ReadStop(lines, n, skip, bad, conv);
      ReadFrom(lines, n, skip, bad, conv).raisedAt.Some? ==> k < |lines| && !skip(lines[k]) && bad(lines[k])
  {
    if lines != [] && (skip(lines[0]) || !bad(lines[0])) {
      ReadStopStep(lines, n, skip, bad, conv);
      ReadRaisesOnBad(lines[1..], n + 1, skip, bad, conv);
    }
  }

  /** The line the reader raises on, by its number. */
  lemma RaisedLine<L, R>(lines: seq<L>, n: nat, skip: L -> bool, bad: L -> bool, conv: L -> R)
    ensures var r := ReadFrom(lines, n, skip, bad, conv);
      r.raisedAt.Some? ==> var i := r.raisedAt.value - n; i < |lines| && !skip(lines[i]) && bad(lines[i])
  {
    ReadRaisesOnBad(lines, n, skip, bad, conv);
  }

  /** The same, for the lines after a header, numbered from 2. */
  lemma RaisedAfterHeader<L, R>(lines: seq<L>, skip: L -> bool, bad: L -> bool, conv: L -> R, a: Option<nat>)
    requires lines != [] && a == ReadFrom(lines[1..], 2, skip, bad, conv).raisedAt
    ensures a.Some? ==> 2 <= a.value <= |lines| && !skip(lines[a.value - 1]) && bad(lines[a.value - 1])
  {
    RaisedLine(lines[1..], 2, skip, bad, conv);
  }

  /** `ReadAll` for the lines after a header, numbered from 2. */
  lemma ReadAllAfterHeader<L, R>(lines: seq<L>, skip: L -> bool, bad: L -> bool, conv: L -> R)
    requires lines != []
    ensures (forall k :: 1 <= k < |lines| && !skip(lines[k]) ==> !bad(lines[k])) <==>
      ReadFrom(lines[1..], 2, skip, bad, conv).raisedAt.None?
    ensures ReadFrom(lines[1..], 2, skip, bad, conv).raisedAt.None? ==>
      ReadFrom(lines[1..], 2, skip, bad, conv).items == Converted(lines[1..], skip, conv)
  {
    ReadAll(lines[1..], 2, skip, bad, conv);
    assert forall k :: 1 <= k < |lines| ==> lines[k] == lines[1..][k - 1];
  }

  /** ... on the first such line, ... */
  lemma {:induction false} ReadFirstBad<L, R>(lines: seq<L>, n: nat, skip: L -> bool, bad: L -> bool, conv: L -> R)
    ensures forall k :: 0 <= k < ReadStop(lines, n, skip, bad, conv) && !skip(lines[k]) ==> !bad(lines[k])
  {
    if lines != [] {
      ReadStopStep(lines, n, skip, bad, conv);
      ReadFirstBad(lines[1..], n + 1, skip, bad, conv);
      forall k | 0 < k < ReadStop(lines, n, skip, bad, conv) ensures lines[k] == lines[1..][k - 1] { }
    }
  }

  /** ... and before that yields every line it does not skip, converted, in order. */
  lemma {:induction false} ReadItems<L, R>(lines: seq<L>, n: nat, skip: L -> bool, bad: L -> bool, conv: L -> R)
    ensures ReadFrom(lines, n, skip, bad, conv).items == Converted(lines[..ReadStop(lines, n, skip, bad, conv)], skip, conv)
  {
    if lines != [] {
      ReadStopStep(lines, n, skip, bad, conv);
      var k := ReadStop(lines, n, skip, bad, conv);
      if k > 0 {
        ReadItems(lines[1..], n + 1, skip, bad, conv);
        assert lines[..k][1..] == lines[1..][..k - 1];
        assert lines[..k][0] == lines[0];
      }
    }
  }

  /** A reader that meets no bad line yields every line it does not skip. */
  lemma ReadAll<L, R>(lines: seq<L>, n: nat, skip: L -> bool, bad: L -> bool, conv: L -> R)
    ensures (forall k :: 0 <= k < |lines| && !skip(lines[k]) ==> !bad(lines[k])) <==>
      ReadFrom(lines, n, skip, bad, conv).raisedAt.None?
    ensures ReadFrom(lines, n, skip, bad, conv).raisedAt.None? ==>
      ReadFrom(lines, n, skip, bad, conv).items == Converted(lines, skip, conv)
  {
    ReadRaisesOnBad(lines, n, skip, bad, conv);
    ReadFirstBad(lines, n, skip, bad, conv);
    ReadItems(lines, n, skip, bad, conv);
    assert lines[..|lines|] == lines;
  }

  // ---------------------------------------------------------------------------
  // deserialize_csv

  /** `[col.strip() for col in xs]`. */
  function StripAll(xs: seq<string>): (r: seq<string>)
    ensures |r| == |xs| && forall k :: 0 <= k < |xs| ==> r[k] == Strip(xs[k])
  {
    if xs == [] then [] else [Strip(xs[0])] + StripAll(xs[1..])
  }

  /** A line the reader skips: nothing but whitespace. */
  predicate Blank(line: string) {
    Strip(line) == ""
  }

  lemma NotBlank(s: string, k: nat)
    requires k < |s| && !IsSpace(s[k])
    ensures !Blank(s)
  {
    if Blank(s) {
      StripEmpty(s);
    }
  }

  /** `len(line.split('\t')) < 2`, the test for an ill-formed line. */
  predicate SingleColumn(line: string) {
    |Split(line, '\t')| < 2
  }

  lemma SingleColumnNoTab(line: string)
    ensures SingleColumn(line) <==> '\t' !in line
  {
    SplitSingle(line, '\t');
  }

  /** The record of one well-formed line: the first column as it is, the others stripped. */
  function CsvRecord(line: string): (string, seq<string>) {
    var cols := Split(line, '\t');
    (cols[0], StripAll(cols[1..]))
  }

  /** `deserialize_csv`: the records, and the index (from 0, as `enumerate` counts)
      of the line that raised `AttributeError`, if any. */
  function DeserializeCsv(lines: seq<string>): (r: Read<(string, seq<string>)>)
    ensures r.raisedAt.None? <==> forall k :: 0 <= k < |lines| && !Blank(lines[k]) ==> '\t' in lines[k]
    ensures r.raisedAt.None? ==> r.items == Converted(lines, Blank, CsvRecord)
    ensures r.raisedAt.Some? ==>
      (r.raisedAt.value < |lines| && !Blank(lines[r.raisedAt.value]) && '\t' !in lines[r.raisedAt.value])
    ensures r.raisedAt.Some? ==>
      && (forall k :: 0 <= k < r.raisedAt.value && !Blank(lines[k]) ==> '\t' in lines[k])
      && r.items == Converted(lines[..r.raisedAt.value], Blank, CsvRecord)
  {
    var r := ReadFrom(lines, 0, Blank, SingleColumn, CsvRecord);
    ReadAll(lines, 0, Blank, SingleColumn, CsvRecord);
    ReadRaisesOnBad(lines, 0, Blank, SingleColumn, CsvRecord);
    ReadFirstBad(lines, 0, Blank, SingleColumn, CsvRecord);
    ReadItems(lines, 0, Blank, SingleColumn, CsvRecord);
    assert forall l :: SingleColumn(l) <==> '\t' !in l by {
      forall l { SingleColumnNoTab(l); }
    }
    r
  }

  /** A record written as its key, a tab, the tab-joined values and a newline. */
  function CsvLine(key: string, vals: seq<string>): string {
    key + "\t" + Join(vals, "\t") + "\n"
  }

  /** Tab-free pieces written as one line, tab-separated and ended by a newline,
      split back into the pieces, the newline sticking to the last one. */
  lemma SplitWrittenLine(xs: seq<string>)
    requires xs != []
    requires forall k :: 0 <= k < |xs| ==> '\t' !in xs[k]
    ensures Split(Join(xs, "\t") + "\n", '\t') == xs[..|xs| - 1] + [xs[|xs| - 1] + "\n"]
  {
    var ys := xs[..|xs| - 1] + [xs[|xs| - 1] + "\n"];
    assert Join(xs, "\t") + "\n" == Join(ys, "\t") by {
      JoinThenText(xs, "\t", "\n");
    }
    assert Split(Join(ys, ['\t']), '\t') == ys by {
      forall k | 0 <= k < |ys| ensures '\t' !in ys[k] {
        if k == |ys| - 1 {
          assert '\t' !in xs[|xs| - 1];
        } else {
          assert ys[k] == xs[k];
        }
      }
      SplitJoin(ys, '\t');
    }
    assert "\t" == ['\t'];
  }

  lemma SplitCsvLine(key: string, vals: seq<string>)
    requires '\t' !in key && vals != []
    requires forall k :: 0 <= k < |vals| ==> '\t' !in vals[k]
    ensures Split(CsvLine(key, vals), '\t') == [key] + vals[..|vals| - 1] + [vals[|vals| - 1] + "\n"]
  {
    var xs := [key] + vals;
    assert xs[1..] == vals;
    assert key + "\t" + Join(vals, "\t") == Join(xs, "\t");
    SplitWrittenLine(xs);
    assert xs[..|xs| - 1] == [key] + vals[..|vals| - 1];
  }

  /** Values that are stripped and tab-free come back from a written line unchanged. */
  lemma StripAllWritten(vals: seq<string>)
    requires vals != []
    requires forall k :: 0 <= k < |vals| ==> Stripped(vals[k])
    ensures StripAll(vals[..|vals| - 1] + [vals[|vals| - 1] + "\n"]) == vals
  {
    var ys := vals[..|vals| - 1] + [vals[|vals| - 1] + "\n"];
    assert AllSpace("\n");
    forall k | 0 <= k < |vals| ensures Strip(ys[k]) == vals[k] {
      if k == |vals| - 1 {
        assert ys[k] == vals[k] + "\n";
        StripTrailingSpace(vals[k], "\n");
      } else {
        assert ys[k] == vals[k];
        StripTrailingSpace(vals[k], "");
        assert vals[k] + "" == vals[k];
      }
    }
    assert StripAll(ys) == vals;
  }

  /** A key with something other than whitespace and clean values survive writing
      and reading back. */
  lemma CsvLineRoundTrip(key: string, vals: seq<string>)
    requires '\t' !in key && !AllSpace(key) && vals != []
    requires forall k :: 0 <= k < |vals| ==> '\t' !in vals[k] && Stripped(vals[k])
    ensures !Blank(CsvLine(key, vals)) && '\t' in CsvLine(key, vals)
    ensures CsvRecord(CsvLine(key, vals)) == (key, vals)
  {
    var line := CsvLine(key, vals);
    assert CsvRecord(line) == (key, vals) by {
      var cols := Split(line, '\t');
      var ys := vals[..|vals| - 1] + [vals[|vals| - 1] + "\n"];
      assert cols == [key] + ys by {
        SplitCsvLine(key, vals);
      }
      assert cols[0] == key && cols[1..] == ys;
      StripAllWritten(vals);
    }
    CsvLineShape(key, Join(vals, "\t"));
  }

  /** A record line whose key holds something other than whitespace is neither
      blank nor without a tab. */
  lemma CsvLineShape(key: string, joined: string)
    requires !AllSpace(key)
    ensures !Blank(key + "\t" + joined + "\n") && '\t' in key + "\t" + joined + "\n"
  {
    var line := key + "\t" + joined + "\n";
    assert line[|key|] == '\t';
    var k :| 0 <= k < |key| && !IsSpace(key[k]);
    assert line[k] == key[k];
    NotBlank(line, k);
  }

  function CsvLines(recs: seq<(string, seq<string>)>): (r: seq<string>)
    ensures |r| == |recs| && forall k :: 0 <= k < |recs| ==> r[k] == CsvLine(recs[k].0, recs[k].1)
  {
    if recs == [] then [] else [CsvLine(recs[0].0, recs[0].1)] + CsvLines(recs[1..])
  }

  /** The records a reader can take back from its own lines. */
  predicate CleanRecord(rec: (string, seq<string>)) {
    '\t' !in rec.0 && !AllSpace(rec.0) && rec.1 != [] &&
    forall m :: 0 <= m < |rec.1| ==> '\t' !in rec.1[m] && Stripped(rec.1[m])
  }

  lemma {:induction false} ConvertedCsvLines(recs: seq<(string, seq<string>)>)
    requires forall k :: 0 <= k < |recs| ==> CleanRecord(recs[k])
    ensures Converted(CsvLines(recs), Blank, CsvRecord) == recs
  {
    if recs != [] {
      CsvLineRoundTrip(recs[0].0, recs[0].1);
      ConvertedCsvLines(recs[1..]);
      assert CsvLines(recs)[1..] == CsvLines(recs[1..]);
      assert [recs[0]] + recs[1..] == recs;
    }
  }

  /** Writing records one per line and reading the file back gives the records. */
  lemma DeserializeCsvRoundTrip(recs: seq<(string, seq<string>)>)
    requires forall k :: 0 <= k < |recs| ==> CleanRecord(recs[k])
    ensures DeserializeCsv(CsvLines(recs)) == Read(recs, None)
  {
    var lines := CsvLines(recs);
    forall k | 0 <= k < |lines| ensures !Blank(lines[k]) && '\t' in lines[k] {
      CsvLineRoundTrip(recs[k].0, recs[k].1);
    }
    ConvertedCsvLines(recs);
  }

  // ---------------------------------------------------------------------------
  // deserialize_map_file

  function MangleAll(xs: seq<string>): (r: seq<string>)
    ensures |r| == |xs| && forall k :: 0 <= k < |xs| ==> r[k] == Mangle(xs[k])
  {
    if xs == [] then [] else [Mangle(xs[0])] + MangleAll(xs[1..])
  }

  /** The stripped tab-separated values of one row. */
  function Fields(row: string): seq<string> {
    StripAll(Split(row, '\t'))
  }

  /** A row the reader skips. */
  predicate CommentRow(row: string) {
    row != [] && row[0] == '#'
  }

  /** `Sample._make` refuses a row with another number of values than the header. */
  predicate WrongWidth(width: nat, row: string) {
    |Fields(row)| != width
  }

  /** `WrongWidth` for a fixed width, as the reader's test for a bad row. */
  function WidthBad(width: nat): string -> bool {
    row => WrongWidth(width, row)
  }

  // ---------------------------------------------------------------------------
  // namedtuple(..., rename=True)

  /** The reserved words of Python 2.7, `keyword.kwlist`. */
  const Keywords: set<string> := {
    "and", "as", "assert", "break", "class", "continue", "def", "del", "elif", "else",
    "except", "exec", "finally", "for", "from", "global", "if", "import", "in", "is",
    "lambda", "not", "or", "pass", "print", "raise", "return", "try", "while", "with", "yield"}

  /** `c.isalnum() or c == '_'` on ASCII text. */
  predicate IdentChar(c: char) {
    'a' <= c <= 'z' || 'A' <= c <= 'Z' || IsDigit(c) || c == '_'
  }

  /** Non-empty and made of identifier characters only. */
  predicate Identifier(s: string) {
    s != [] && forall k :: 0 <= k < |s| ==> IdentChar(s[k])
  }

  /** A name `namedtuple` keeps as it is when it has not been seen before: an
      identifier that is no keyword and starts with neither a digit nor `_`. */
  predicate FieldName(name: string) {
    Identifier(name) && name !in Keywords && !IsDigit(name[0]) && name[0] != '_'
  }

  predicate Distinct(names: seq<string>) {
    forall i, j :: 0 <= i < j < |names| ==> names[i] != names[j]
  }

  /** The renaming loop of `namedtuple(typename, names, rename=True)` from
      position `index` on, `seen` holding the names before it: a name that is no
      valid field name, or has been seen, becomes `_` and its position. */
  function RenameFrom(names: seq<string>, index: nat, seen: set<string>): (r: seq<string>)
    ensures |r| == |names|
  {
    if names == [] then []
    else
      var name := names[0];
      [if !FieldName(name) || name in seen then "_" + NatToString(index) else name]
        + RenameFrom(names[1..], index + 1, seen + {name})
  }

  /** The field names a `namedtuple` created with `rename=True` carries. */
  function Rename(names: seq<string>): (r: seq<string>)
    ensures |r| == |names|
  {
    RenameFrom(names, 0, {})
  }

  lemma {:induction false} RenameFromAt(names: seq<string>, index: nat, seen: set<string>, k: nat)
    requires k < |names|
    ensures RenameFrom(names, index, seen)[k] ==
            if FieldName(names[k]) && names[k] !in seen && names[k] !in names[..k] then names[k]
            else "_" + NatToString(index + k)
  {
    if k > 0 {
      RenameFromAt(names[1..], index + 1, seen + {names[0]}, k - 1);
      assert names[1..][k - 1] == names[k];
      assert names[..k] == [names[0]] + names[1..][..k - 1];
    }
  }

  /** Field k keeps its name exactly when it is a valid field name that no
      earlier field has; otherwise it is called `_k`. */
  lemma RenameAt(names: seq<string>, k: nat)
    requires k < |names|
    ensures Rename(names)[k] == if FieldName(names[k]) && names[k] !in names[..k] then names[k] else "_" + NatToString(k)
  {
    RenameFromAt(names, 0, {}, k);
  }

  lemma UnderscoreNumberInjective(i: nat, j: nat)
    requires "_" + NatToString(i) == "_" + NatToString(j)
    ensures i == j
  {
    assert NatToString(i) == ("_" + NatToString(i))[1..];
    assert NatToString(j) == ("_" + NatToString(j))[1..];
    ParseNatToString(i);
    ParseNatToString(j);
  }

  /** The renamed fields are identifiers, and no two are the same, so
      `namedtuple` accepts them. */
  lemma RenameValid(names: seq<string>)
    ensures forall k :: 0 <= k < |names| ==> Identifier(Rename(names)[k])
    ensures Distinct(Rename(names))
  {
    var r := Rename(names);
    forall k | 0 <= k < |names| ensures Identifier(r[k]) {
      RenameAt(names, k);
      if r[k] != names[k] || !FieldName(names[k]) {
        var d := NatToString(k);
        assert r[k] == "_" + d;
        assert forall m :: 1 <= m < |r[k]| ==> r[k][m] == d[m - 1];
      }
    }
    forall i, j | 0 <= i < j < |names| ensures r[i] != r[j] {
      RenameAt(names, i);
      RenameAt(names, j);
      var keepI := FieldName(names[i]) && names[i] !in names[..i];
      var keepJ := FieldName(names[j]) && names[j] !in names[..j];
      if keepI && keepJ {
        assert names[..j][i] == names[i];
      } else if !keepI && !keepJ {
        if r[i] == r[j] {
          UnderscoreNumberInjective(i, j);
        }
      }
    }
  }

  /** Distinct valid field names are kept as they are. */
  lemma RenameKeeps(names: seq<string>)
    requires forall k :: 0 <= k < |names| ==> FieldName(names[k])
    requires Distinct(names)
    ensures Rename(names) == names
  {
    forall k | 0 <= k < |names| ensures Rename(names)[k] == names[k] {
      RenameAt(names, k);
      assert names[k] !in names[..k] by {
        forall m | 0 <= m < k ensures names[..k][m] != names[k] {
          assert names[..k][m] == names[m];
        }
      }
    }
  }

  /** The field names of the samples (the mangled header, renamed) and what the reader yields. Row numbers
      count the header as row 1, so the first data row is row 2. */
  datatype MapFile = MapFile(header: seq<string>, samples: Read<seq<string>>)

  /** Every item a reader yields is the conversion of a line it neither skips nor finds bad. */
  lemma {:induction false} ReadItemsGood<L, R>(lines: seq<L>, n: nat, skip: L -> bool, bad: L -> bool, conv: L -> R, good: R -> bool)
    requires forall l :: !skip(l) && !bad(l) ==> good(conv(l))
    ensures forall k :: 0 <= k < |ReadFrom(lines, n, skip, bad, conv).items| ==> good(ReadFrom(lines, n, skip, bad, conv).items[k])
  {
    if lines != [] {
      ReadItemsGood(lines[1..], n + 1, skip, bad, conv, good);
    }
  }

  /** The reader of the rows after a header of `width` fields. */
  function MapRows(rows: seq<string>, width: nat): Read<seq<string>> {
    ReadFrom(rows, 2, CommentRow, WidthBad(width), Fields)
  }

  /** `deserialize_map_file`: an empty file yields nothing; otherwise the first line
      is the header and each later row, unless it starts with `#`, becomes a sample. */
  function DeserializeMapFile(lines: seq<string>): (r: MapFile)
    ensures lines == [] ==> r == MapFile([], Read([], None))
    ensures forall k :: 0 <= k < |r.header| ==> Identifier(r.header[k])
    ensures Distinct(r.header)
    ensures forall k :: 0 <= k < |r.header| ==> NoSpace(r.header[k]) && '#' !in r.header[k]
  {
    if lines == [] || lines[0] == "" then MapFile([], Read([], None))
    else
      var header := Rename(MangleAll(Split(lines[0], '\t')));
      RenameValid(MangleAll(Split(lines[0], '\t')));
      IdentifiersClean(header);
      MapFile(header, MapRows(lines[1..], |header|))
  }

  lemma IdentifiersClean(names: seq<string>)
    requires forall k :: 0 <= k < |names| ==> Identifier(names[k])
    ensures forall k :: 0 <= k < |names| ==> NoSpace(names[k]) && '#' !in names[k]
  {
    forall k | 0 <= k < |names| ensures NoSpace(names[k]) && '#' !in names[k] {
      assert forall m :: 0 <= m < |names[k]| ==> IdentChar(names[k][m]);
    }
  }

  /** Every sample has one value per header field. */
  lemma MapFileSamplesWidth(lines: seq<string>)
    ensures var r := DeserializeMapFile(lines);
      forall k :: 0 <= k < |r.samples.items| ==> |r.samples.items[k]| == |r.header|
  {
    if lines != [] && lines[0] != "" {
      var w := |DeserializeMapFile(lines).header|;
      ReadItemsGood(lines[1..], 2, CommentRow, WidthBad(w), Fields, fs => |fs| == w);
    }
  }

  /** The row the reader of a file's rows reports is a data row of the wrong width. */
  lemma MapRowsSparse(lines: seq<string>, w: nat, a: Option<nat>)
    requires lines != [] && a == MapRows(lines[1..], w).raisedAt
    ensures a.Some? ==> 2 <= a.value <= |lines| && !CommentRow(lines[a.value - 1]) && |Fields(lines[a.value - 1])| != w
  {
    RaisedAfterHeader(lines, CommentRow, WidthBad(w), Fields, a);
  }

  lemma MapRowsAll(lines: seq<string>, w: nat, r: Read<seq<string>>)
    requires lines != [] && r == MapRows(lines[1..], w)
    ensures r.raisedAt.None? <==>
      forall k :: 1 <= k < |lines| && !CommentRow(lines[k]) ==> |Fields(lines[k])| == w
    ensures r.raisedAt.None? ==> r.items == Converted(lines[1..], CommentRow, Fields)
  {
    ReadAllAfterHeader(lines, CommentRow, WidthBad(w), Fields);
  }

  /** The row number reported as sparse is a data row with the wrong number of values. */
  lemma MapFileSparseRow(lines: seq<string>)
    ensures var r := DeserializeMapFile(lines);
      r.samples.raisedAt.Some? ==>
        var n := r.samples.raisedAt.value;
        2 <= n <= |lines| && !CommentRow(lines[n - 1]) && |Fields(lines[n - 1])| != |r.header|
  {
    if lines != [] && lines[0] != "" {
      var header := Rename(MangleAll(Split(lines[0], '\t')));
      var a := MapRows(lines[1..], |header|).raisedAt;
      assert DeserializeMapFile(lines) == MapFile(header, MapRows(lines[1..], |header|));
      MapRowsSparse(lines, |header|, a);
    }
  }

  /** Without a sparse row, every row not starting with `#` becomes a sample, in order. */
  lemma MapFileAllRows(lines: seq<string>)
    requires lines != [] && lines[0] != ""
    ensures var r := DeserializeMapFile(lines);
      r.samples.raisedAt.None? <==>
        forall k :: 1 <= k < |lines| && !CommentRow(lines[k]) ==> |Fields(lines[k])| == |r.header|
    ensures var r := DeserializeMapFile(lines);
      r.samples.raisedAt.None? ==> r.samples.items == Converted(lines[1..], CommentRow, Fields)
  {
    var header := Rename(MangleAll(Split(lines[0], '\t')));
    assert DeserializeMapFile(lines) == MapFile(header, MapRows(lines[1..], |header|));
    MapRowsAll(lines, |header|, MapRows(lines[1..], |header|));
  }

  /** A name the mangle leaves alone. */
  predicate CleanName(f: string) {
    NoSpace(f) && '#' !in f
  }

  /** A header line as QIIME writes it: `#`, the tab-joined names, a newline. */
  function HeaderLine(names: seq<string>): string {
    "#" + Join(names, "\t") + "\n"
  }

  function RowLine(vals: seq<string>): string {
    Join(vals, "\t") + "\n"
  }

  lemma JoinPrefix(p: string, xs: seq<string>, sep: string)
    requires xs != []
    ensures p + Join(xs, sep) == Join([p + xs[0]] + xs[1..], sep)
  {
    var ys := [p + xs[0]] + xs[1..];
    assert ys[1..] == xs[1..];
  }

  /** The pieces of a split header line: `#` on the first name, a newline on the last. */
  lemma HeaderPieces(names: seq<string>, xs: seq<string>, ps: seq<string>)
    requires names != [] && forall k :: 0 <= k < |names| ==> CleanName(names[k])
    requires xs == ["#" + names[0]] + names[1..] && ps == xs[..|xs| - 1] + [xs[|xs| - 1] + "\n"]
    ensures |ps| == |names| && forall k :: 0 <= k < |names| ==> Mangle(ps[k]) == names[k]
  {
    forall k | 0 <= k < |names| ensures Mangle(ps[k]) == names[k] {
      HeaderPiece(names, xs, ps, k);
    }
  }

  lemma HeaderPiece(names: seq<string>, xs: seq<string>, ps: seq<string>, k: nat)
    requires k < |names| && CleanName(names[k])
    requires xs == ["#" + names[0]] + names[1..] && ps == xs[..|xs| - 1] + [xs[|xs| - 1] + "\n"]
    ensures Mangle(ps[k]) == names[k]
  {
    var f, m := names[k], |names| - 1;
    if k == 0 && k == m {
      assert ps[k] == "#" + f + "\n";
      MangleHashClean(f);
    } else if k == 0 {
      assert ps[k] == "#" + f;
      MangleHashClean(f);
    } else if k == m {
      assert ps[k] == f + "\n";
      MangleClean(f);
    } else {
      assert ps[k] == f;
      MangleClean(f);
    }
  }

  /** A header line of clean names mangles back to the names. */
  lemma HeaderLineRoundTrip(names: seq<string>)
    requires names != [] && forall k :: 0 <= k < |names| ==> CleanName(names[k])
    ensures MangleAll(Split(HeaderLine(names), '\t')) == names
  {
    var xs := ["#" + names[0]] + names[1..];
    var ps := xs[..|xs| - 1] + [xs[|xs| - 1] + "\n"];
    assert Split(HeaderLine(names), '\t') == ps by {
      JoinPrefix("#", names, "\t");
      assert HeaderLine(names) == Join(xs, "\t") + "\n";
      forall k | 0 <= k < |xs| ensures '\t' !in xs[k] {
        assert IsSpace('\t');
        if k == 0 {
          assert '\t' !in names[0];
        } else {
          assert xs[k] == names[k];
        }
      }
      SplitWrittenLine(xs);
    }
    HeaderPieces(names, xs, ps);
  }

  lemma JoinStart(xs: seq<string>, sep: string)
    requires xs != []
    ensures StartsWith(Join(xs, sep), xs[0])
    ensures |xs| > 1 ==> StartsWith(Join(xs, sep)[|xs[0]|..], sep)
  {
    if |xs| > 1 {
      assert Join(xs, sep) == xs[0] + (sep + Join(xs[1..], sep));
    }
  }

  /** A row of clean values reads back as those values ... */
  lemma RowLineFields(vals: seq<string>)
    requires vals != []
    requires forall k :: 0 <= k < |vals| ==> '\t' !in vals[k] && Stripped(vals[k])
    ensures Fields(RowLine(vals)) == vals
  {
    SplitWrittenLine(vals);
    StripAllWritten(vals);
  }

  /** ... and is not taken for a comment. */
  lemma RowLineNotComment(vals: seq<string>)
    requires vals != [] && !StartsWith(vals[0], "#") && '\t' !in vals[0]
    ensures !CommentRow(RowLine(vals))
  {
    var j := Join(vals, "\t");
    JoinStart(vals, "\t");
    var line := RowLine(vals);
    assert line[..|j|] == j;
    if vals[0] != [] {
      assert line[0] == j[0] == vals[0][0];
      assert vals[0][..1] != "#";
    } else if |vals| > 1 {
      assert line[0] == j[0] == '\t';
    } else {
      assert j == vals[0] == "";
      assert line == "\n" && line[..1] == "\n";
    }
  }

  lemma RowLineRoundTrip(vals: seq<string>)
    requires vals != [] && !StartsWith(vals[0], "#")
    requires forall k :: 0 <= k < |vals| ==> '\t' !in vals[k] && Stripped(vals[k])
    ensures Fields(RowLine(vals)) == vals
    ensures !CommentRow(RowLine(vals))
  {
    RowLineFields(vals);
    RowLineNotComment(vals);
  }

  function RowLines(rows: seq<seq<string>>): (r: seq<string>)
    ensures |r| == |rows| && forall k :: 0 <= k < |rows| ==> r[k] == RowLine(rows[k])
  {
    if rows == [] then [] else [RowLine(rows[0])] + RowLines(rows[1..])
  }

  /** A row of values that a map file can carry unchanged. */
  predicate CleanRow(vals: seq<string>, width: nat) {
    |vals| == width && vals != [] && !StartsWith(vals[0], "#") &&
    forall k :: 0 <= k < |vals| ==> '\t' !in vals[k] && Stripped(vals[k])
  }

  lemma {:induction false} ConvertedRowLines(rows: seq<seq<string>>, width: nat)
    requires forall k :: 0 <= k < |rows| ==> CleanRow(rows[k], width)
    ensures Converted(RowLines(rows), CommentRow, Fields) == rows
  {
    if rows != [] {
      RowLineRoundTrip(rows[0]);
      ConvertedRowLines(rows[1..], width);
      assert RowLines(rows)[1..] == RowLines(rows[1..]);
      assert [rows[0]] + rows[1..] == rows;
    }
  }

  /** A map file written as a header line of clean names and rows of clean values
      of the same width reads back as exactly that. */
  lemma MapFileRoundTrip(names: seq<string>, rows: seq<seq<string>>)
    requires names != [] && forall k :: 0 <= k < |names| ==> FieldName(names[k])
    requires Distinct(names)
    requires forall k :: 0 <= k < |rows| ==> CleanRow(rows[k], |names|)
    ensures DeserializeMapFile([HeaderLine(names)] + RowLines(rows)) == MapFile(names, Read(rows, None))
  {
    var lines := [HeaderLine(names)] + RowLines(rows);
    assert lines[0] == HeaderLine(names) && lines[0] != "" && lines[1..] == RowLines(rows);
    MapFileHeaderOf(names);
    assert DeserializeMapFile(lines) == MapFile(names, MapRows(RowLines(rows), |names|));
    assert MapRows(RowLines(rows), |names|) == Read(rows, None) by {
      forall k | 0 <= k < |rows| ensures !CommentRow(RowLines(rows)[k]) && Fields(RowLines(rows)[k]) == rows[k] {
        RowLineRoundTrip(rows[k]);
      }
      ConvertedRowLines(rows, |names|);
      ReadAll(RowLines(rows), 2, CommentRow, WidthBad(|names|), Fields);
    }
  }

  /** A header line of distinct valid field names gives those names to the samples. */
  lemma MapFileHeaderOf(names: seq<string>)
    requires names != [] && forall k :: 0 <= k < |names| ==> FieldName(names[k])
    requires Distinct(names)
    ensures Rename(MangleAll(Split(HeaderLine(names), '\t'))) == names
  {
    IdentifiersClean(names);
    HeaderLineRoundTrip(names);
    RenameKeeps(names);
  }

  // ---------------------------------------------------------------------------
  // take

  /** Python's `xs[i]` on a sequence of length `n`: negative indices count from the
      end; anything else out of range is an IndexError (`None` here). */
  function PyIndex(i: int, n: nat): (r: Option<nat>)
    ensures r.Some? <==> -(n as int) <= i < n
    ensures r.Some? ==> r.value < n && (if i >= 0 then r.value == i else r.value == n + i)
  {
    if 0 <= i < n then Some(i) else if -(n as int) <= i < 0 then Some(n + i) else None
  }

  /** `raw[i][j]`, or `None` for an IndexError. */
  function At<T>(raw: seq<seq<T>>, ij: (int, int)): (r: Option<T>)
  {
    match PyIndex(ij.0, |raw|)
    case None => None
    case Some(i) =>
      match PyIndex(ij.1, |raw[i]|)
      case None => None
      case Some(j) => Some(raw[i][j])
  }

  /** `take(raw, index_list)`: `[raw[i][j] for i, j in index_list]`, an IndexError
      at the first pair out of range. */
  function Take<T>(raw: seq<seq<T>>, idx: seq<(int, int)>): (r: Result<seq<T>>)
    ensures r.Ok? ==> |r.value| == |idx|
  {
    if idx == [] then Ok([])
    else match At(raw, idx[0])
      case None => Crash("IndexError: list index out of range")
      case Some(x) =>
        match Take(raw, idx[1..])
        case Crash(m) => Crash(m)
        case Ok(rest) => Ok([x] + rest)
  }

  /** `take` succeeds exactly when every pair is in range, and then holds the element at each. */
  lemma {:induction false} TakeSpec<T>(raw: seq<seq<T>>, idx: seq<(int, int)>)
    ensures Take(raw, idx).Ok? <==> forall k :: 0 <= k < |idx| ==> At(raw, idx[k]).Some?
    ensures Take(raw, idx).Ok? ==> forall k :: 0 <= k < |idx| ==> Some(Take(raw, idx).value[k]) == At(raw, idx[k])
  {
    if idx != [] {
      TakeSpec(raw, idx[1..]);
      assert forall k :: 0 < k < |idx| ==> idx[k] == idx[1..][k - 1];
    }
  }

  /** The pairs `(i, j)` of every element of row `i`, in order. */
  function RowIndices(i: nat, len: nat): (r: seq<(int, int)>)
    ensures |r| == len && forall j :: 0 <= j < len ==> r[j] == (i, j)
  {
    seq(len, j => (i, j))
  }

  /** The pairs of every element of the rows from `i` on, row by row. */
  function IndicesFrom<T>(raw: seq<seq<T>>, i: nat): seq<(int, int)>
    requires i <= |raw|
    decreases |raw| - i
  {
    if i == |raw| then [] else RowIndices(i, |raw[i]|) + IndicesFrom(raw, i + 1)
  }

  lemma {:induction false} TakeAppend<T>(raw: seq<seq<T>>, a: seq<(int, int)>, b: seq<(int, int)>)
    requires Take(raw, a).Ok? && Take(raw, b).Ok?
    ensures Take(raw, a + b) == Ok(Take(raw, a).value + Take(raw, b).value)
  {
    if a == [] {
      assert a + b == b;
      assert Take(raw, a).value + Take(raw, b).value == Take(raw, b).value;
    } else {
      assert (a + b)[0] == a[0] && (a + b)[1..] == a[1..] + b;
      TakeAppend(raw, a[1..], b);
      var x := At(raw, a[0]).value;
      var p, q := Take(raw, a[1..]).value, Take(raw, b).value;
      assert Take(raw, a + b) == Ok([x] + (p + q));
      assert [x] + (p + q) == ([x] + p) + q;
    }
  }

  /** Taking every index of a matrix, row by row, flattens it. */
  lemma {:induction false} TakeEveryIndex<T>(raw: seq<seq<T>>, i: nat)
    requires i <= |raw|
    ensures Take(raw, IndicesFrom(raw, i)) == Ok(Concat(raw[i..]))
    decreases |raw| - i
  {
    if i < |raw| {
      var row := RowIndices(i, |raw[i]|);
      TakeSpec(raw, row);
      assert forall j :: 0 <= j < |row| ==> At(raw, row[j]) == Some(raw[i][j]);
      assert Take(raw, row).value == raw[i];
      TakeEveryIndex(raw, i + 1);
      TakeAppend(raw, row, IndicesFrom(raw, i + 1));
      assert raw[i..][0] == raw[i] && raw[i..][1..] == raw[i + 1..];
    } else {
      assert raw[i..] == [];
    }
  }

  // ---------------------------------------------------------------------------
  // keepkeys, keyrename

  /** The entries of `m` whose key is among `keys`. */
  function KeptKeys<K, V>(m: map<K, V>, keys: seq<K>): (r: map<K, V>)
  {
    map k | k in m && k in keys :: m[k]
  }

  lemma KeptKeysSpec<K, V>(m: map<K, V>, keys: seq<K>)
    ensures forall k :: k in KeptKeys(m, keys) <==> k in m && k in keys
    ensures forall k :: k in KeptKeys(m, keys) ==> KeptKeys(m, keys)[k] == m[k]
  {
  }

  /** Keeping the same keys again changes nothing, and the order of two calls does not matter. */
  lemma KeptKeysIdempotent<K, V>(m: map<K, V>, a: seq<K>, b: seq<K>)
    ensures KeptKeys(KeptKeys(m, a), a) == KeptKeys(m, a)
    ensures KeptKeys(KeptKeys(m, a), b) == KeptKeys(KeptKeys(m, b), a)
  {
  }

  /** The result of applying the `(frm, to)` pairs in order: the dictionary, and the
      key that raised `KeyError` (the changes of the earlier pairs stay applied). */
  datatype Renamed<K, V> = Renamed(items: map<K, V>, missing: Option<K>)

  /** `d[to] = d.pop(frm)`. */
  function RenameStep<K, V>(m: map<K, V>, frm: K, to: K): (r: map<K, V>)
    requires frm in m
    ensures to in r && r[to] == m[frm]
    ensures r.Keys == m.Keys - {frm} + {to}
    ensures forall k :: k in r && k != to ==> r[k] == m[k]
  {
    (m - {frm})[to := m[frm]]
  }

  function KeyRenamed<K, V>(m: map<K, V>, mapping: seq<(K, K)>): Renamed<K, V>
    decreases |mapping|
  {
    if mapping == [] then Renamed(m, None)
    else if mapping[0].0 !in m then Renamed(m, Some(mapping[0].0))
    else KeyRenamed(RenameStep(m, mapping[0].0, mapping[0].1), mapping[1..])
  }

  /** Renaming with two lists is renaming with the first, then, if no key was missing, the second. */
  lemma {:induction false} KeyRenamedAppend<K, V>(m: map<K, V>, a: seq<(K, K)>, b: seq<(K, K)>)
    ensures KeyRenamed(m, a).missing.Some? ==> KeyRenamed(m, a + b) == KeyRenamed(m, a)
    ensures KeyRenamed(m, a).missing.None? ==> KeyRenamed(m, a + b) == KeyRenamed(KeyRenamed(m, a).items, b)
    decreases |a|
  {
    if a == [] {
      assert a + b == b;
    } else {
      assert (a + b)[0] == a[0] && (a + b)[1..] == a[1..] + b;
      if a[0].0 in m {
        KeyRenamedAppend(RenameStep(m, a[0].0, a[0].1), a[1..], b);
      }
    }
  }

  /** Renaming a key to a fresh name and back restores the dictionary. */
  lemma KeyRenameRoundTrip<K, V>(m: map<K, V>, f: K, t: K)
    requires f in m && t !in m
    ensures KeyRenamed(m, [(f, t), (t, f)]) == Renamed(m, None)
  {
    var m1 := RenameStep(m, f, t);
    var m2 := RenameStep(m1, t, f);
    assert m2 == m;
    assert [(f, t), (t, f)][1..] == [(t, f)];
    assert [(t, f)][1..] == [];
    assert KeyRenamed(m1, [(t, f)]) == KeyRenamed(m2, []);
  }

  /** A key that is missing from the start raises at once and changes nothing. */
  lemma KeyRenameMissing<K, V>(m: map<K, V>, f: K, t: K, rest: seq<(K, K)>)
    requires f !in m
    ensures KeyRenamed(m, [(f, t)] + rest) == Renamed(m, Some(f))
  {
  }

  /** A Python dictionary that the helpers change in place. */
  class PyDict<K(==), V> {
    var items: map<K, V>

    constructor (m: map<K, V>)
      ensures items == m
    {
      items := m;
    }

    /** `keepkeys(d, keys)`: deletes, one by one, every key not in `keys`, and
        returns the same dictionary. */
    method KeepKeys(keys: seq<K>) returns (d: PyDict<K, V>)
      modifies this
      ensures d == this
      ensures items == KeptKeys(old(items), keys)
    {
      var toRm := set k | k in items && k !in keys;
      while toRm != {}
        invariant toRm <= items.Keys
        invariant forall k :: k in items && k !in keys ==> k in toRm
        invariant KeptKeys(items, keys) == KeptKeys(old(items), keys)
        invariant items.Keys <= old(items).Keys
        decreases toRm
      {
        var k :| k in toRm;
        items := items - {k};
        toRm := toRm - {k};
      }
      assert items == KeptKeys(items, keys);
      d := this;
    }

    /** `keyrename(d, mapping)`: moves each value from `frm` to `to`, pair by pair;
        a missing `frm` raises KeyError with the earlier moves already made. */
    method KeyRename(mapping: seq<(K, K)>) returns (r: Result<PyDict<K, V>>)
      modifies this
      ensures items == KeyRenamed(old(items), mapping).items
      ensures r.Ok? <==> KeyRenamed(old(items), mapping).missing.None?
      ensures r.Ok? ==> r.value == this
    {
      var i := 0;
      while i < |mapping|
        invariant 0 <= i <= |mapping|
        invariant KeyRenamed(items, mapping[i..]) == KeyRenamed(old(items), mapping)
      {
        var frm, to := mapping[i].0, mapping[i].1;
        assert mapping[i..][0] == mapping[i] && mapping[i..][1..] == mapping[i + 1..];
        if frm !in items {
          return Crash("KeyError");
        }
        var v := items[frm];
        items := (items - {frm})[to := v];
        i := i + 1;
      }
      assert mapping[i..] == [];
      return Ok(this);
    }
  }

  // ---------------------------------------------------------------------------
  // memoized

  /** One call of the memoized wrapper: a cached result is returned as it is; otherwise
      the function runs, and its result is cached unless it raised. The cache key is
      the positional arguments alone, so keyword arguments never reach a cached call. */
  function MemoCall<A, W, R>(f: (A, W) -> Result<R>, cache: map<A, R>, args: A, kwargs: W): (Result<R>, map<A, R>) {
    if args in cache then (Ok(cache[args]), cache)
    else match f(args, kwargs)
      case Ok(v) => (Ok(v), cache[args := v])
      case Crash(m) => (Crash(m), cache)
  }

  /** Every cached value is one the function returned for those positional arguments. */
  ghost predicate CacheSound<A(!new), W(!new), R>(f: (A, W) -> Result<R>, cache: map<A, R>) {
    forall a :: a in cache ==> exists w :: f(a, w) == Ok(cache[a])
  }

  /** A call keeps the cache sound and returns what the function would for some keyword arguments. */
  lemma MemoCallSound<A(!new), W(!new), R>(f: (A, W) -> Result<R>, cache: map<A, R>, args: A, kwargs: W)
    requires CacheSound(f, cache)
    ensures CacheSound(f, MemoCall(f, cache, args, kwargs).1)
    ensures MemoCall(f, cache, args, kwargs).0.Ok? ==> exists w :: f(args, w) == MemoCall(f, cache, args, kwargs).0
  {
    if args !in cache && f(args, kwargs).Ok? {
      var c := cache[args := f(args, kwargs).value];
      forall a | a in c ensures exists w :: f(a, w) == Ok(c[a]) {
        if a == args {
          assert f(a, kwargs) == Ok(c[a]);
        }
      }
    }
  }

  /** Once a call succeeded, a second call with the same positional arguments returns
      the same value whatever its keyword arguments, and leaves the cache alone. */
  lemma MemoCallAgain<A, W, R>(f: (A, W) -> Result<R>, cache: map<A, R>, args: A, kw1: W, kw2: W)
    requires MemoCall(f, cache, args, kw1).0.Ok?
    ensures var (r1, c1) := MemoCall(f, cache, args, kw1);
      MemoCall(f, c1, args, kw2) == (r1, c1)
  {
  }

  /** For a function that ignores its keyword arguments, memoization is invisible. */
  lemma MemoCallTransparent<A(!new), W(!new), R>(f: (A, W) -> Result<R>, cache: map<A, R>, args: A, kwargs: W)
    requires forall a, w1, w2 :: f(a, w1) == f(a, w2)
    requires CacheSound(f, cache)
    ensures MemoCall(f, cache, args, kwargs).0 == f(args, kwargs)
  {
    if args in cache {
      var w :| f(args, w) == Ok(cache[args]);
    }
  }

  /** `memoized(func)`: the wrapper with its cache. */
  class Memoized<A(==), W, R> {
    const func: (A, W) -> Result<R>
    var cache: map<A, R>

    constructor (f: (A, W) -> Result<R>)
      ensures func == f && cache == map[]
    {
      func := f;
      cache := map[];
    }

    method Call(args: A, kwargs: W) returns (r: Result<R>)
      modifies this
      ensures (r, cache) == MemoCall(func, old(cache), args, kwargs)
    {
      if args in cache {
        r := Ok(cache[args]);
      } else {
        r := func(args, kwargs);
        if r.Ok? {
          cache := cache[args := r.value];
        }
      }
    }
  }
}
