/**
 * The field-keyed sort of sort.h: every input line is split into a key — the whole line, its
 * k-th separator-delimited field, or a later field — and the lines are output in ascending key
 * order.  Positions are size_t values; std::string::npos, the "not found" answer of
 * find_first_of and find_first_not_of, is None here.
 */
module KeySort {
  import opened Wrappers
  import opened Lex

  /** 2^64: long long values reach size_t parameters modulo this. */
  const SizeModulus: int := 0x1_0000_0000_0000_0000

  /** The long long range of the key field numbers. */
  type Int64 = x: int | -0x8000_0000_0000_0000 <= x < 0x8000_0000_0000_0000

  /** The conversion of a long long to size_t, as when a key field number is passed as a count. */
  function AsSize(v: int): (r: nat)
    ensures r < SizeModulus && (r - v) % SizeModulus == 0
    ensures 0 <= v < SizeModulus ==> r == v
  {
    v % SizeModulus
  }

  /** struct parameters: -1 in a key field means that field is not given. */
  datatype Parameters = Parameters(keyField1: Int64, keyField2: Int64, columnSeparator: string)

  const DefaultParameters: Parameters := Parameters(-1, -1, "\n\t\r ")

  /** struct sort_block: a line and the start and length of its key. */
  datatype Block = Block(origin: string, fsi: nat, num: nat)

  // ------------------------------------------------------------ std::string searches

  /** line.find_first_not_of(sep, from): the first position at or after from holding no separator. */
  function FirstNotOf(line: string, sep: string, from: nat): (r: Option<nat>)
    ensures r.Some? ==> from <= r.value < |line| && line[r.value] !in sep
    ensures forall k :: from <= k < |line| && (r.None? || k < r.value) ==> line[k] in sep
    decreases |line| - from
  {
    if from >= |line| then None
    else if line[from] !in sep then Some(from)
    else FirstNotOf(line, sep, from + 1)
  }

  /** line.find_first_of(sep, from): the first position at or after from holding a separator. */
  function FirstOf(line: string, sep: string, from: nat): (r: Option<nat>)
    ensures r.Some? ==> from <= r.value < |line| && line[r.value] in sep
    ensures forall k :: from <= k < |line| && (r.None? || k < r.value) ==> line[k] !in sep
    decreases |line| - from
  {
    if from >= |line| then None
    else if line[from] in sep then Some(from)
    else FirstOf(line, sep, from + 1)
  }

  // ------------------------------------------------------------ fields, declaratively

  /** Position i begins a field of a scan started at pos: it holds no separator and is pos or follows a separator. */
  predicate FieldStart(line: string, sep: string, pos: nat, i: nat)
  {
    pos <= i < |line| && line[i] !in sep && (i == pos || line[i - 1] in sep)
  }

  /** The number of fields of the scan started at pos that begin before position i. */
  function StartsBefore(line: string, sep: string, pos: nat, i: nat): nat
  {
    if i <= pos then 0
    else StartsBefore(line, sep, pos, i - 1) + (if FieldStart(line, sep, pos, i - 1) then 1 else 0)
  }

  /** The field beginning at s runs up to e: no separator in between, and e is the end of the line or a separator. */
  predicate RunTo(line: string, sep: string, s: nat, e: nat)
  {
    s <= e <= |line| && (forall k :: s <= k < e ==> line[k] !in sep) && (e == |line| || line[e] in sep)
  }

  /**
   * [s, e) is what find_part_of promises for the count-th field after pos: the empty span at pos
   * for count 0, the count-th field when the line has that many, and the empty span at the end
   * of the line otherwise.
   */
  predicate IsFieldSpan(line: string, sep: string, pos: nat, count: nat, s: nat, e: nat)
  {
    if count == 0 then s == pos && e == pos
    else if count <= StartsBefore(line, sep, pos, |line|) then
      FieldStart(line, sep, pos, s) && StartsBefore(line, sep, pos, s) == count - 1 && RunTo(line, sep, s, e)
    else s == |line| && e == |line|
  }

  lemma {:induction false} NoStartsBetween(line: string, sep: string, pos: nat, a: nat, b: nat)
    requires a <= b
    requires forall i :: a <= i < b ==> !FieldStart(line, sep, pos, i)
    ensures StartsBefore(line, sep, pos, b) == StartsBefore(line, sep, pos, a)
    decreases b
  {
    if a < b && b > pos {
      NoStartsBetween(line, sep, pos, a, b - 1);
    }
  }

  lemma {:induction false} StartsMonotone(line: string, sep: string, pos: nat, a: nat, b: nat)
    requires a <= b
    ensures StartsBefore(line, sep, pos, a) <= StartsBefore(line, sep, pos, b)
    decreases b
  {
    if a < b {
      StartsMonotone(line, sep, pos, a, b - 1);
    }
  }

  /** Past a position e that is no field start, a scan started at e sees the fields of one started earlier. */
  lemma {:induction false} ShiftedStarts(line: string, sep: string, pos: nat, e: nat, i: nat)
    requires pos <= e <= i && (e == |line| || (e < |line| && line[e] in sep))
    ensures StartsBefore(line, sep, e, i) == StartsBefore(line, sep, pos, i) - StartsBefore(line, sep, pos, e)
    ensures forall j :: e <= j ==> (FieldStart(line, sep, e, j) <==> FieldStart(line, sep, pos, j))
    decreases i
  {
    if i > e {
      ShiftedStarts(line, sep, pos, e, i - 1);
    }
  }

  // ------------------------------------------------------------ find_part_of

  /** The values of first and last in find_part_of, npos being None. */
  datatype Scan = Scan(first: Option<nat>, last: Option<nat>)

  /** One pass of find_part_of's loop. */
  function Advance(line: string, sep: string, last: Option<nat>): Scan
  {
    var first := if last.None? then None else FirstNotOf(line, sep, last.value);
    Scan(first, if first.None? then None else FirstOf(line, sep, first.value))
  }

  /** first and last after count passes of find_part_of's loop from pos: both stay within [pos, |line|]. */
  function Scanned(line: string, sep: string, pos: nat, count: nat): (sc: Scan)
    ensures pos <= |line| && sc.first.Some? ==> pos <= sc.first.value <= |line|
    ensures pos <= |line| && sc.last.Some? ==> sc.first.Some? && sc.first.value <= sc.last.value <= |line|
  {
    if count == 0 then Scan(Some(pos), Some(pos)) else Advance(line, sep, Scanned(line, sep, pos, count - 1).last)
  }

  /** npos read as the length of the line. */
  function OrLength(line: string, p: Option<nat>): nat
  {
    if p.None? then |line| else p.value
  }

  /** find_part_of(line, pos, count, sep): the start and end of the count-th field after pos. */
  function PartOf(line: string, pos: nat, count: nat, sep: string): (r: (nat, nat))
    ensures pos <= |line| ==> pos <= r.0 <= r.1 <= |line|
  {
    var sc := Scanned(line, sep, pos, count);
    (OrLength(line, sc.first), OrLength(line, sc.last))
  }

  /** After k >= 1 passes the scan holds the k-th field, or npos in both when the line has fewer. */
  ghost predicate ScanHolds(line: string, sep: string, pos: nat, k: nat, sc: Scan)
  {
    match sc.first
    case None => sc.last.None? && StartsBefore(line, sep, pos, |line|) < k
    case Some(f) =>
      FieldStart(line, sep, pos, f) && StartsBefore(line, sep, pos, f) == k - 1 &&
      RunTo(line, sep, f, OrLength(line, sc.last)) && (sc.last.Some? ==> sc.last.value < |line|)
  }

  /** The first pass finds the first field at or after pos. */
  lemma FirstPass(line: string, sep: string, pos: nat)
    ensures ScanHolds(line, sep, pos, 1, Advance(line, sep, Some(pos)))
  {
    var f := FirstNotOf(line, sep, pos);
    match f
    case None =>
      if pos < |line| {
        NoStartsBetween(line, sep, pos, pos, |line|);
      }
    case Some(s) =>
      NoStartsBetween(line, sep, pos, pos, s);
  }

  /** A pass from the end of the k-th field finds the (k+1)-th. */
  lemma NextPass(line: string, sep: string, pos: nat, k: nat, sc: Scan)
    requires k >= 1 && ScanHolds(line, sep, pos, k, sc)
    ensures ScanHolds(line, sep, pos, k + 1, Advance(line, sep, sc.last))
  {
    if sc.first.Some? {
      var f := sc.first.value;
      var e := OrLength(line, sc.last);
      assert StartsBefore(line, sep, pos, f + 1) == k;
      var next := Advance(line, sep, sc.last);
      if next.first.None? {
        forall i | f + 1 <= i < |line| ensures !FieldStart(line, sep, pos, i) {
          if i > e {
            assert line[i] in sep;
          }
        }
        NoStartsBetween(line, sep, pos, f + 1, |line|);
      } else {
        var f' := next.first.value;
        forall i | f + 1 <= i < f' ensures !FieldStart(line, sep, pos, i) {
          if i > e {
            assert line[i] in sep;
          }
        }
        NoStartsBetween(line, sep, pos, f + 1, f');
      }
    }
  }

  lemma {:induction false} ScanHoldsAfter(line: string, sep: string, pos: nat, k: nat)
    requires k >= 1
    ensures ScanHolds(line, sep, pos, k, Scanned(line, sep, pos, k))
  {
    if k == 1 {
      FirstPass(line, sep, pos);
    } else {
      ScanHoldsAfter(line, sep, pos, k - 1);
      NextPass(line, sep, pos, k - 1, Scanned(line, sep, pos, k - 1));
    }
  }

  /** find_part_of returns the count-th field after pos, in the sense of IsFieldSpan. */
  lemma PartOfMeaning(line: string, sep: string, pos: nat, count: nat)
    ensures var r := PartOf(line, pos, count, sep); IsFieldSpan(line, sep, pos, count, r.0, r.1)
  {
    if count > 0 {
      ScanHoldsAfter(line, sep, pos, count);
      var sc := Scanned(line, sep, pos, count);
      if sc.first.Some? {
        StartsMonotone(line, sep, pos, sc.first.value + 1, |line|);
      }
    }
  }

  /** The span of the count-th field is unique: later fields begin strictly later. */
  lemma FieldSpanUnique(line: string, sep: string, pos: nat, count: nat, s: nat, e: nat, s': nat, e': nat)
    requires IsFieldSpan(line, sep, pos, count, s, e) && IsFieldSpan(line, sep, pos, count, s', e')
    ensures s == s' && e == e'
  {
    if 0 < count <= StartsBefore(line, sep, pos, |line|) {
      if s < s' {
        StartsMonotone(line, sep, pos, s + 1, s');
        assert false;
      } else if s' < s {
        StartsMonotone(line, sep, pos, s' + 1, s);
        assert false;
      }
    }
  }

  /** find_part_of's loop: first and last updated count times. */
  method FindPartOf(line: string, pos: nat, count: nat, separator: string) returns (r: (nat, nat))
    ensures r == PartOf(line, pos, count, separator)
    ensures IsFieldSpan(line, separator, pos, count, r.0, r.1)
  {
    var first: Option<nat>, last: Option<nat> := Some(pos), Some(pos);
    for i := 0 to count
      invariant Scan(first, last) == Scanned(line, separator, pos, i)
    {
      first := if last.None? then None else FirstNotOf(line, separator, last.value);
      last := if first.None? then None else FirstOf(line, separator, first.value);
    }
    r := (OrLength(line, first), OrLength(line, last));
    PartOfMeaning(line, separator, pos, count);
  }

  // ------------------------------------------------------------ split and compare

  /** split: the key of a line under the parameters. */
  function Split(line: string, args: Parameters): (b: Block)
    ensures b.origin == line && b.fsi + b.num <= |line|
  {
    if args.keyField1 == -1 then Block(line, 0, |line|)
    else
      var r := PartOf(line, 0, AsSize(args.keyField1), args.columnSeparator);
      if args.keyField2 == -1 then Block(line, r.0, r.1 - r.0)
      else
        var r2 := PartOf(line, r.1, AsSize(args.keyField2 - args.keyField1), args.columnSeparator);
        Block(line, r2.0, r2.1 - r2.0)
  }

  /** The scan resumed at the end of the k-th field counts on from there: c more fields reach field k + c. */
  lemma ResumeAfterField(line: string, sep: string, k: nat, c: nat)
    requires k >= 1 && c >= 1
    ensures var r := PartOf(line, 0, k, sep); var r2 := PartOf(line, r.1, c, sep);
      IsFieldSpan(line, sep, 0, k + c, r2.0, r2.1)
  {
    var r := PartOf(line, 0, k, sep);
    var r2 := PartOf(line, r.1, c, sep);
    PartOfMeaning(line, sep, 0, k);
    PartOfMeaning(line, sep, r.1, c);
    if k <= StartsBefore(line, sep, 0, |line|) {
      ResumeWithinLine(line, sep, k, c, r.0, r.1, r2.0, r2.1);
    } else {
      assert StartsBefore(line, sep, r.1, |line|) == 0;
    }
  }

  lemma ResumeWithinLine(line: string, sep: string, k: nat, c: nat, s: nat, e: nat, s2: nat, e2: nat)
    requires k >= 1 && c >= 1 && k <= StartsBefore(line, sep, 0, |line|)
    requires IsFieldSpan(line, sep, 0, k, s, e) && IsFieldSpan(line, sep, e, c, s2, e2)
    ensures IsFieldSpan(line, sep, 0, k + c, s2, e2)
  {
    NoStartsBetween(line, sep, 0, s + 1, e);
    assert StartsBefore(line, sep, 0, e) == k;
    ShiftedStarts(line, sep, 0, e, |line|);
    if c <= StartsBefore(line, sep, e, |line|) {
      ShiftedStarts(line, sep, 0, e, s2);
    }
  }

  /**
   * Without key fields the key is the whole line; with key_field1 = k only, it is the k-th field;
   * with key_field2 = k2 beyond it, the scan resumes after field k and the key is field k2 alone;
   * with key_field2 = key_field1 the key is empty.
   */
  lemma SplitMeaning(line: string, args: Parameters)
    ensures var b, sep := Split(line, args), args.columnSeparator;
      (args.keyField1 == -1 ==> b.fsi == 0 && b.num == |line|) &&
      (args.keyField1 >= 0 && args.keyField2 == -1 ==> IsFieldSpan(line, sep, 0, args.keyField1, b.fsi, b.fsi + b.num)) &&
      (0 <= args.keyField1 < args.keyField2 ==> IsFieldSpan(line, sep, 0, args.keyField2, b.fsi, b.fsi + b.num)) &&
      (0 <= args.keyField1 == args.keyField2 ==> b.num == 0)
  {
    var k1, k2 := args.keyField1, args.keyField2;
    if k1 >= 0 && k2 == -1 {
      PartOfMeaning(line, args.columnSeparator, 0, k1);
    } else if 0 <= k1 < k2 {
      SplitLaterField(line, args);
    }
  }

  lemma SplitLaterField(line: string, args: Parameters)
    requires 0 <= args.keyField1 < args.keyField2
    ensures var b := Split(line, args); IsFieldSpan(line, args.columnSeparator, 0, args.keyField2, b.fsi, b.fsi + b.num)
  {
    var sep, k1, k2 := args.columnSeparator, args.keyField1 as nat, args.keyField2 as nat;
    assert AsSize(args.keyField1) == k1 && AsSize(args.keyField2 - args.keyField1) == k2 - k1;
    var r := PartOf(line, 0, k1, sep);
    var r2 := PartOf(line, r.1, k2 - k1, sep);
    assert Split(line, args) == Block(line, r2.0, r2.1 - r2.0);
    if k1 == 0 {
      assert r == (0, 0);
      PartOfMeaning(line, sep, 0, k2);
    } else {
      ResumeAfterField(line, sep, k1, k2 - k1);
    }
  }

  /** std::string::compare over the first n characters: the sign of the first difference. */
  function TraitsCompare(a: string, b: string, n: nat): (r: int)
    requires n <= |a| && n <= |b|
    ensures -1 <= r <= 1
  {
    if n == 0 then 0
    else if a[0] < b[0] then -1
    else if b[0] < a[0] then 1
    else TraitsCompare(a[1..], b[1..], n - 1)
  }

  /** std::string::compare: the common prefix decides, then the shorter string is smaller. */
  function StringCompare(a: string, b: string): int
  {
    var n := if |a| < |b| then |a| else |b|;
    var r := TraitsCompare(a, b, n);
    if r != 0 then r else |a| - |b|
  }

  /** A difference within the shorter length decides the lexicographic order; none leaves it to the lengths. */
  lemma {:induction false} TraitsCompareIsLexLess(a: string, b: string, n: nat)
    requires n <= |a| && n <= |b| && (n == |a| || n == |b|)
    ensures TraitsCompare(a, b, n) < 0 ==> StrLess(a, b)
    ensures TraitsCompare(a, b, n) > 0 ==> StrLess(b, a)
    ensures TraitsCompare(a, b, n) == 0 ==> (StrLess(a, b) <==> |a| < |b|)
  {
    if n > 0 && a[0] == b[0] {
      TraitsCompareIsLexLess(a[1..], b[1..], n - 1);
    }
  }

  /** compare's three-way answer is negative exactly when the first string sorts first. */
  lemma StringCompareIsStrLess(a: string, b: string)
    ensures StringCompare(a, b) < 0 <==> StrLess(a, b)
  {
    var n := if |a| < |b| then |a| else |b|;
    TraitsCompareIsLexLess(a, b, n);
    StrLessIsStrictTotalOrder();
  }

  /** The key of a block: origin_string.substr(fsi, num); std::string::compare throws when fsi is past the end. */
  function Key(b: Block): (k: string)
    requires b.fsi <= |b.origin|
    ensures |k| <= b.num
  {
    b.origin[b.fsi..if b.fsi + b.num < |b.origin| then b.fsi + b.num else |b.origin|]
  }

  predicate Fits(b: Block)
  {
    b.fsi <= |b.origin|
  }

  /** compare: the key of block1 sorts strictly before the key of block2. */
  function Compare(block1: Block, block2: Block): bool
    requires Fits(block1) && Fits(block2)
  {
    StringCompare(Key(block1), Key(block2)) < 0
  }

  /** compare is the strict weak ordering std::sort requires: keys compare lexicographically, and blocks tie exactly on equal keys. */
  lemma CompareIsStrictWeakOrder(a: Block, b: Block, c: Block)
    requires Fits(a) && Fits(b) && Fits(c)
    ensures Compare(a, b) <==> StrLess(Key(a), Key(b))
    ensures !Compare(a, a)
    ensures Compare(a, b) ==> !Compare(b, a)
    ensures Compare(a, b) && Compare(b, c) ==> Compare(a, c)
    ensures !Compare(a, b) && !Compare(b, a) <==> Key(a) == Key(b)
  {
    StrLessIsStrictTotalOrder();
    StringCompareIsStrLess(Key(a), Key(b));
    StringCompareIsStrLess(Key(b), Key(a));
    StringCompareIsStrLess(Key(b), Key(c));
    StringCompareIsStrLess(Key(a), Key(c));
    StringCompareIsStrLess(Key(a), Key(a));
  }

  // ------------------------------------------------------------ sort

  predicate AllFit(bs: seq<Block>)
  {
    forall i :: 0 <= i < |bs| ==> Fits(bs[i])
  }

  /** No block is followed by one that compare puts strictly before it. */
  predicate Ordered(bs: seq<Block>)
  {
    AllFit(bs) && forall i, j :: 0 <= i < j < |bs| ==> !Compare(bs[j], bs[i])
  }

  /** Insertion of b into ordered blocks: before the first block that b compares less than. */
  function Insert(bs: seq<Block>, b: Block): (r: seq<Block>)
    requires AllFit(bs) && Fits(b)
  {
    if bs == [] then [b]
    else if Compare(b, bs[0]) then [b] + bs
    else [bs[0]] + Insert(bs[1..], b)
  }

  /** The origin strings of the blocks, in order. */
  function Origins(bs: seq<Block>): (r: seq<string>)
    ensures |r| == |bs|
  {
    if bs == [] then [] else [bs[0].origin] + Origins(bs[1..])
  }

  lemma {:induction false} OriginsAt(bs: seq<Block>)
    ensures forall i :: 0 <= i < |bs| ==> Origins(bs)[i] == bs[i].origin
  {
    if bs != [] {
      OriginsAt(bs[1..]);
    }
  }

  lemma {:induction false} OriginsSplit(a: seq<Block>, b: seq<Block>)
    ensures Origins(a + b) == Origins(a) + Origins(b)
  {
    var l, r := Origins(a + b), Origins(a) + Origins(b);
    OriginsAt(a + b);
    OriginsAt(a);
    OriginsAt(b);
    forall i | 0 <= i < |l| ensures l[i] == r[i] {
      if i < |a| {
        assert (a + b)[i] == a[i];
      } else {
        assert (a + b)[i] == b[i - |a|];
      }
    }
  }

  /** Inserting adds exactly b. */
  lemma {:induction false} InsertCounts(bs: seq<Block>, b: Block)
    requires AllFit(bs) && Fits(b)
    ensures multiset(Insert(bs, b)) == multiset(bs) + multiset{b}
  {
    if bs != [] && !Compare(b, bs[0]) {
      InsertCounts(bs[1..], b);
      SplitFirst(bs);
    }
  }

  /** Inserting adds exactly b's line to the origins. */
  lemma {:induction false} InsertOrigins(bs: seq<Block>, b: Block)
    requires AllFit(bs) && Fits(b)
    ensures multiset(Origins(Insert(bs, b))) == multiset(Origins(bs)) + multiset{b.origin}
  {
    if bs != [] && !Compare(b, bs[0]) {
      InsertOrigins(bs[1..], b);
      var tail := Insert(bs[1..], b);
      assert ([bs[0]] + tail)[1..] == tail;
    }
  }

  /** Inserting keeps the blocks ordered. */
  lemma {:induction false} InsertOrdered(bs: seq<Block>, b: Block)
    requires Ordered(bs) && Fits(b)
    ensures Ordered(Insert(bs, b))
  {
    if bs == [] {
    } else if Compare(b, bs[0]) {
      InsertFront(bs, b);
    } else {
      InsertOrdered(bs[1..], b);
      InsertCounts(bs[1..], b);
      InsertBehind(bs, b);
    }
  }

  lemma InsertFront(bs: seq<Block>, b: Block)
    requires Ordered(bs) && Fits(b) && bs != [] && Compare(b, bs[0])
    ensures Ordered(Insert(bs, b))
  {
    assert Insert(bs, b) == [b] + bs;
    forall j | 0 <= j < |bs| ensures !Compare(bs[j], b) {
      CompareIsStrictWeakOrder(bs[j], b, bs[0]);
      CompareIsStrictWeakOrder(b, bs[0], bs[j]);
    }
    OrderedCons(b, bs);
  }

  lemma InsertBehind(bs: seq<Block>, b: Block)
    requires Ordered(bs) && Fits(b) && bs != [] && !Compare(b, bs[0])
    requires multiset(Insert(bs[1..], b)) == multiset(bs[1..]) + multiset{b}
    requires Ordered(Insert(bs[1..], b))
    ensures Ordered(Insert(bs, b))
  {
    var tail := Insert(bs[1..], b);
    assert Insert(bs, b) == [bs[0]] + tail;
    HeadFirst(bs, b, tail);
    OrderedCons(bs[0], tail);
  }

  /** Every block of the insertion behind bs[0] may follow bs[0]. */
  lemma HeadFirst(bs: seq<Block>, b: Block, tail: seq<Block>)
    requires Ordered(bs) && Fits(b) && bs != [] && !Compare(b, bs[0])
    requires multiset(tail) == multiset(bs[1..]) + multiset{b} && AllFit(tail)
    ensures forall j :: 0 <= j < |tail| ==> !Compare(tail[j], bs[0])
  {
    var rest := bs[1..];
    forall j | 0 <= j < |tail| ensures !Compare(tail[j], bs[0]) {
      assert tail[j] in multiset(tail);
      if tail[j] != b {
        assert tail[j] in multiset(rest);
        var m :| 0 <= m < |rest| && rest[m] == tail[j];
        assert bs[m + 1] == tail[j];
      }
    }
  }

  /** A block that no later block compares less than can lead an ordered sequence. */
  lemma OrderedCons(x: Block, tail: seq<Block>)
    requires Ordered(tail) && Fits(x)
    requires forall j :: 0 <= j < |tail| ==> !Compare(tail[j], x)
    ensures Ordered([x] + tail)
  {
    var r := [x] + tail;
    forall i, j | 0 <= i < j < |r| ensures !Compare(r[j], r[i]) {
      assert r[j] == tail[j - 1];
      if i > 0 {
        assert r[i] == tail[i - 1];
      }
    }
  }

  /** The key of a line under the parameters. */
  function LineKey(line: string, args: Parameters): string
  {
    Key(Split(line, args))
  }

  lemma TakeOneMore<T>(s: seq<T>, i: nat)
    requires i < |s|
    ensures s[..i + 1] == s[..i] + [s[i]]
  {
  }

  lemma SplitFirst<T>(s: seq<T>)
    requires s != []
    ensures s == [s[0]] + s[1..]
  {
  }

  /** Inserting the next block keeps SortBlocks' invariants. */
  lemma InsertStep(sorted: seq<Block>, lines: seq<Block>, i: nat)
    requires AllFit(lines) && i < |lines| && Ordered(sorted)
    requires multiset(sorted) == multiset(lines[..i]) && multiset(Origins(sorted)) == multiset(Origins(lines[..i]))
    ensures multiset(Insert(sorted, lines[i])) == multiset(lines[..i + 1])
    ensures multiset(Origins(Insert(sorted, lines[i]))) == multiset(Origins(lines[..i + 1]))
    ensures Ordered(Insert(sorted, lines[i]))
  {
    InsertOrdered(sorted, lines[i]);
    InsertCounts(sorted, lines[i]);
    InsertOrigins(sorted, lines[i]);
    TakeOneMore(lines, i);
    OriginsSplit(lines[..i], [lines[i]]);
  }

  /** std::sort(lines.begin(), lines.end(), compare): the blocks ordered by key, as a permutation. */
  method SortBlocks(lines: seq<Block>) returns (sorted: seq<Block>)
    requires AllFit(lines)
    ensures multiset(sorted) == multiset(lines)
    ensures multiset(Origins(sorted)) == multiset(Origins(lines))
    ensures Ordered(sorted)
  {
    sorted := [];
    for i := 0 to |lines|
      invariant multiset(sorted) == multiset(lines[..i])
      invariant multiset(Origins(sorted)) == multiset(Origins(lines[..i]))
      invariant Ordered(sorted)
    {
      InsertStep(sorted, lines, i);
      sorted := Insert(sorted, lines[i]);
    }
    assert lines[..|lines|] == lines;
  }

  /**
   * sort: each input line once, in non-decreasing key order (lines with equal keys in an
   * order the model leaves open); the output stream is the sequence of printed lines.
   */
  method Sort(input: seq<string>, args: Parameters) returns (output: seq<string>)
    ensures multiset(output) == multiset(input)
    ensures forall i, j :: 0 <= i < j < |output| ==> !StrLess(LineKey(output[j], args), LineKey(output[i], args))
  {
    var lines := SplitLines(input, args);
    SplitAllFits(input, args);
    var sorted := SortBlocks(lines);
    output := WriteLines(sorted);
    SplitAllOrigins(input, args);
    OriginsAt(sorted);
    forall i, j | 0 <= i < j < |output| ensures !StrLess(LineKey(output[j], args), LineKey(output[i], args)) {
      SortedKeys(sorted, lines, input, args, i, j);
    }
  }

  /** sort's writing loop: output << block.origin << '\n' for every block, in order. */
  method WriteLines(sorted: seq<Block>) returns (output: seq<string>)
    ensures output == Origins(sorted)
  {
    output := [];
    for i := 0 to |sorted|
      invariant output == Origins(sorted[..i])
    {
      output := output + [sorted[i].origin];
      OriginsSplit(sorted[..i], [sorted[i]]);
      assert sorted[..i + 1] == sorted[..i] + [sorted[i]];
    }
    assert sorted[..|sorted|] == sorted;
  }

  /** sort's reading loop: lines.push_back(split(line, args)) for every input line. */
  method SplitLines(input: seq<string>, args: Parameters) returns (lines: seq<Block>)
    ensures lines == SplitAll(input, args)
  {
    lines := [];
    for i := 0 to |input|
      invariant lines == SplitAll(input[..i], args)
    {
      lines := lines + [Split(input[i], args)];
      assert input[..i + 1][..i] == input[..i];
    }
    assert input[..|input|] == input;
  }

  /** The blocks of the lines, in order. */
  function SplitAll(input: seq<string>, args: Parameters): (r: seq<Block>)
    ensures |r| == |input|
  {
    if input == [] then [] else SplitAll(input[..|input| - 1], args) + [Split(input[|input| - 1], args)]
  }

  lemma {:induction false} SplitAllFits(input: seq<string>, args: Parameters)
    ensures forall i :: 0 <= i < |input| ==> SplitAll(input, args)[i] == Split(input[i], args)
    ensures AllFit(SplitAll(input, args))
  {
    if input != [] {
      SplitAllFits(input[..|input| - 1], args);
    }
  }

  lemma SplitAllOrigins(input: seq<string>, args: Parameters)
    ensures Origins(SplitAll(input, args)) == input
  {
    SplitAllFits(input, args);
    OriginsAt(SplitAll(input, args));
  }

  lemma SortedKeys(sorted: seq<Block>, lines: seq<Block>, input: seq<string>, args: Parameters, i: nat, j: nat)
    requires lines == SplitAll(input, args) && multiset(sorted) == multiset(lines) && Ordered(sorted)
    requires i < j < |sorted|
    ensures !StrLess(LineKey(sorted[j].origin, args), LineKey(sorted[i].origin, args))
  {
    SplitAllFits(input, args);
    forall k | 0 <= k < |sorted| ensures sorted[k] == Split(sorted[k].origin, args) {
      assert sorted[k] in multiset(lines);
      var m :| 0 <= m < |lines| && lines[m] == sorted[k];
    }
    CompareIsStrictWeakOrder(sorted[j], sorted[i], sorted[i]);
  }
}
