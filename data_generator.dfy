/** `DataGenerator` (data_generation/data_generator.py): the four shapes of
    test input and the dispatch over their tags. Python's global random state
    is modelled as an arbitrary stream of draws `draw: nat -> nat`; the `k`-th
    call `random.randint(lo, hi)` of a generator yields
    `RandInt(lo, hi, draw(k))`, and every value of `[lo, hi]` is reachable. */
module DataGenerator {
  import opened Sortedness

  datatype Option<T> = None | Some(value: T)

  datatype Result<T> = Ok(value: T) | Error(message: string)

  /** The four dataset shapes, `Config.DATA_TYPES`. */
  datatype Shape = Random | Sorted | Reversed | NearlySorted

  /** The tag under which `generate_dataset` knows each shape. */
  function Tag(shape: Shape): string
  {
    match shape
    case Random => "random"
    case Sorted => "sorted"
    case Reversed => "reversed"
    case NearlySorted => "nearly_sorted"
  }

  /** The lookup in the `generators` table of `generate_dataset`. */
  function ParseShape(tag: string): (r: Option<Shape>)
    ensures r.Some? ==> Tag(r.value) == tag
  {
    if tag == "random" then Some(Random)
    else if tag == "sorted" then Some(Sorted)
    else if tag == "reversed" then Some(Reversed)
    else if tag == "nearly_sorted" then Some(NearlySorted)
    else None
  }

  /** The table holds exactly the four tags: a tag is accepted if and only if
      it is the tag of some shape, and then it names that shape. */
  lemma ParseShapeIffTag(tag: string, shape: Shape)
    ensures ParseShape(tag) == Some(shape) <==> tag == Tag(shape)
  {
    match shape
    case Random =>
    case Sorted => assert "sorted" != "random";
    case Reversed => assert "reversed" != "random" && "reversed" != "sorted";
    case NearlySorted =>
      assert "nearly_sorted" != "random" && "nearly_sorted" != "sorted" && "nearly_sorted" != "reversed";
  }

  /** The message of the `ValueError` raised for an unknown tag. */
  function UnknownMessage(tag: string): string
  {
    "Unknown data type: " + tag
  }

  /** `random.randint(lo, hi)` fed with the draw `d`. */
  function RandInt(lo: int, hi: int, d: nat): (r: int)
    requires lo <= hi
    ensures lo <= r <= hi
  {
    lo + d % (hi - lo + 1)
  }

  /** Every value of `[lo, hi]` is one `randint(lo, hi)` can return. */
  lemma RandIntReaches(lo: int, hi: int, v: int)
    requires lo <= v <= hi
    ensures RandInt(lo, hi, v - lo) == v
  {
  }

  /** `generate_random_data(size)`: `size` draws of `randint(0, size * 10)`. */
  function RandomData(size: nat, draw: nat -> nat): (r: seq<int>)
    ensures |r| == size
    ensures forall k :: 0 <= k < |r| ==> 0 <= r[k] <= size * 10
  {
    var r := seq(size, k requires 0 <= k => RandInt(0, size * 10, draw(k)));
    assert forall k :: 0 <= k < size ==> r[k] == RandInt(0, size * 10, draw(k));
    r
  }

  /** Conversely, every list of `size` values in `[0, size * 10]` is a possible
      outcome of `generate_random_data(size)`. */
  lemma RandomDataCovers(size: nat, s: seq<int>)
    requires |s| == size
    requires forall k :: 0 <= k < |s| ==> 0 <= s[k] <= size * 10
    ensures exists draw: nat -> nat :: RandomData(size, draw) == s
  {
    var draw: nat -> nat := (k: nat) => if k < |s| then s[k] as nat else 0;
    forall k | 0 <= k < size
      ensures RandomData(size, draw)[k] == s[k]
    {
      RandIntReaches(0, size * 10, s[k]);
    }
    assert RandomData(size, draw) == s;
  }

  /** `generate_sorted_data(size)`: `list(range(size))`. */
  function SortedData(size: nat): seq<int>
  {
    seq(size, k => k)
  }

  /** The sorted shape is `[0, 1, ..., size - 1]`, each value where it belongs:
      strictly increasing, hence sorted in the sense of `is_sorted`. */
  lemma SortedDataIsSorted(size: nat)
    ensures |SortedData(size)| == size
    ensures forall k :: 0 <= k < size ==> SortedData(size)[k] == k
    ensures IsSorted(SortedData(size))
  {
  }

  /** `generate_reversed_data(size)`: `list(range(size, 0, -1))`. */
  function ReversedData(size: nat): seq<int>
  {
    seq(size, k => size - k)
  }

  /** The reversed shape is `[size, size - 1, ..., 1]`: the values `1..size`
      in strictly decreasing order, so not sorted once it has two elements. */
  lemma ReversedDataShape(size: nat)
    ensures |ReversedData(size)| == size
    ensures forall k :: 0 <= k < size ==> ReversedData(size)[k] == SortedData(size)[size - 1 - k] + 1
    ensures forall k :: 0 <= k < size - 1 ==> ReversedData(size)[k] > ReversedData(size)[k + 1]
    ensures size >= 2 ==> !IsSorted(ReversedData(size))
  {
    if size >= 2 {
      DescentNotSorted(ReversedData(size), 0);
    }
  }

  /** The values `1..size` in increasing order: what sorting the reversed
      shape must give. */
  function Ascending(size: nat): seq<int>
  {
    seq(size, k => k + 1)
  }

  /** The reversed shape holds exactly the values `1..size`. */
  lemma {:induction false} ReversedDataElements(size: nat)
    ensures multiset(ReversedData(size)) == multiset(Ascending(size))
  {
    if size > 0 {
      ReversedDataElements(size - 1);
      assert ReversedData(size) == [size] + ReversedData(size - 1);
      assert Ascending(size) == Ascending(size - 1) + [size];
    }
  }

  /** `num_swaps` of `generate_nearly_sorted_data`, with the integer quotient in
      place of `int(size * 0.1)`. */
  function NumSwaps(size: nat): nat
  {
    size / 10
  }

  /** The list `s` with the values at `i` and `j` exchanged. */
  function SwapAt(s: seq<int>, i: int, j: int): (r: seq<int>)
    requires 0 <= i < |s| && 0 <= j < |s|
    ensures |r| == |s|
  {
    seq(|s|, k requires 0 <= k < |s| => if k == i then s[j] else if k == j then s[i] else s[k])
  }

  /** A swap only reorders the list. */
  lemma SwapAtElements(s: seq<int>, i: int, j: int)
    requires 0 <= i < |s| && 0 <= j < |s|
    ensures multiset(SwapAt(s, i, j)) == multiset(s)
  {
    assert SwapAt(s, i, j) == s[i := s[j]][j := s[i]];
  }

  /** The list after the first `t` swaps of `generate_nearly_sorted_data(size)`:
      swap number `t` (from 0) exchanges `randint(0, size - 1)` fed with draw
      `2 * t` and `randint(0, size - 1)` fed with draw `2 * t + 1`. */
  function Scrambled(size: nat, draw: nat -> nat, t: nat): (r: seq<int>)
    requires t == 0 || size > 0
    ensures |r| == size
  {
    if t == 0 then SortedData(size)
    else
      var (i, j) := SwapIndices(size, draw, t - 1);
      SwapAt(Scrambled(size, draw, t - 1), i, j)
  }

  /** The positions where `s` and `u` differ. */
  function Displaced(s: seq<int>, u: seq<int>): set<int>
    requires |s| == |u|
  {
    set k | 0 <= k < |s| && s[k] != u[k]
  }

  /** A subset has no more elements than its superset. */
  lemma SubsetCard(a: set<int>, b: set<int>)
    requires a <= b
    ensures |a| <= |b|
  {
    assert b == a + (b - a);
    assert a * (b - a) == {};
  }

  /** One swap displaces at most two more positions. */
  lemma SwapDisplaces(s: seq<int>, u: seq<int>, i: int, j: int)
    requires |s| == |u| && 0 <= i < |s| && 0 <= j < |s|
    ensures |Displaced(SwapAt(s, i, j), u)| <= |Displaced(s, u)| + 2
  {
    var d := Displaced(s, u);
    assert Displaced(SwapAt(s, i, j), u) <= d + {i, j};
    SubsetCard(Displaced(SwapAt(s, i, j), u), d + {i, j});
    assert |d + {i, j}| <= |d| + |{i, j}|;
  }

  /** Swap number `t` exchanges the positions `SwapIndices(size, draw, t)`. */
  function SwapIndices(size: nat, draw: nat -> nat, t: nat): (r: (int, int))
    requires size > 0
    ensures 0 <= r.0 < size && 0 <= r.1 < size
  {
    (RandInt(0, size - 1, draw(2 * t)), RandInt(0, size - 1, draw(2 * t + 1)))
  }

  /** After `t` swaps the list is a permutation of `range(size)`. */
  lemma {:induction false} ScrambledPermutation(size: nat, draw: nat -> nat, t: nat)
    requires t == 0 || size > 0
    ensures multiset(Scrambled(size, draw, t)) == multiset(SortedData(size))
  {
    if t > 0 {
      ScrambledPermutation(size, draw, t - 1);
      var (i, j) := SwapIndices(size, draw, t - 1);
      SwapAtElements(Scrambled(size, draw, t - 1), i, j);
    }
  }

  /** After `t` swaps the list differs from `range(size)` in at most `2 * t`
      positions. */
  lemma {:induction false} ScrambledDisplaced(size: nat, draw: nat -> nat, t: nat)
    requires t == 0 || size > 0
    ensures |Displaced(Scrambled(size, draw, t), SortedData(size))| <= 2 * t
  {
    if t == 0 {
      assert Displaced(SortedData(size), SortedData(size)) == {};
    } else {
      ScrambledDisplaced(size, draw, t - 1);
      var (i, j) := SwapIndices(size, draw, t - 1);
      SwapDisplaces(Scrambled(size, draw, t - 1), SortedData(size), i, j);
    }
  }

  /** `generate_nearly_sorted_data(size)`: start from `range(size)` and perform
      `num_swaps` random swaps in place. */
  method GenerateNearlySorted(size: nat, draw: nat -> nat) returns (data: seq<int>)
    ensures data == Scrambled(size, draw, NumSwaps(size))
    ensures multiset(data) == multiset(SortedData(size))
    ensures |Displaced(data, SortedData(size))| <= 2 * NumSwaps(size)
    ensures NumSwaps(size) == 0 ==> data == SortedData(size)
  {
    var a := new int[size](k => k);
    assert a[..] == SortedData(size);
    var numSwaps := NumSwaps(size);
    for t := 0 to numSwaps
      invariant a[..] == Scrambled(size, draw, t)
    {
      var i := RandInt(0, size - 1, draw(2 * t));
      var j := RandInt(0, size - 1, draw(2 * t + 1));
      ghost var s := a[..];
      a[i], a[j] := a[j], a[i];
      assert a[..] == SwapAt(s, i, j) by {
        assert forall k :: 0 <= k < size ==> a[k] == SwapAt(s, i, j)[k];
      }
    }
    data := a[..];
    ScrambledPermutation(size, draw, numSwaps);
    ScrambledDisplaced(size, draw, numSwaps);
  }

  /** The list the generator for `shape` returns for `size` and the draws. */
  function Generated(shape: Shape, size: nat, draw: nat -> nat): seq<int>
  {
    match shape
    case Random => RandomData(size, draw)
    case Sorted => SortedData(size)
    case Reversed => ReversedData(size)
    case NearlySorted => Scrambled(size, draw, NumSwaps(size))
  }

  /** What a dataset of a shape is, independently of how it is generated. */
  ghost predicate Conforms(shape: Shape, size: nat, data: seq<int>)
  {
    |data| == size &&
    match shape
    case Random => forall k :: 0 <= k < size ==> 0 <= data[k] <= size * 10
    case Sorted => forall k :: 0 <= k < size ==> data[k] == k
    case Reversed => forall k :: 0 <= k < size ==> data[k] == size - k
    case NearlySorted =>
      multiset(data) == multiset(SortedData(size)) &&
      |Displaced(data, SortedData(size))| <= 2 * NumSwaps(size)
  }

  /** Every generator returns a dataset of its shape and of the requested size. */
  lemma GeneratedConforms(shape: Shape, size: nat, draw: nat -> nat)
    ensures Conforms(shape, size, Generated(shape, size, draw))
  {
    if shape == NearlySorted {
      ScrambledPermutation(size, draw, NumSwaps(size));
      ScrambledDisplaced(size, draw, NumSwaps(size));
    }
  }

  /** `generate_dataset(data_type, size)`: an unknown tag is an error with the
      `ValueError` message; a known one runs exactly its generator. */
  method GenerateDataset(dataType: string, size: nat, draw: nat -> nat) returns (r: Result<seq<int>>)
    ensures ParseShape(dataType).None? ==> r == Error(UnknownMessage(dataType))
    ensures ParseShape(dataType).Some? ==> r == Ok(Generated(ParseShape(dataType).value, size, draw))
  {
    var shape := ParseShape(dataType);
    if shape.None? {
      return Error(UnknownMessage(dataType));
    }
    match shape.value
    case Random =>
      r := Ok(RandomData(size, draw));
    case Sorted =>
      r := Ok(SortedData(size));
    case Reversed =>
      r := Ok(ReversedData(size));
    case NearlySorted =>
      var data := GenerateNearlySorted(size, draw);
      r := Ok(data);
  }

  /** `k` is the last position before `n` at which `s` holds `s[k]`. */
  predicate LastBefore<T(==)>(s: seq<T>, k: int, n: int)
    requires n <= |s|
  {
    0 <= k < n && forall k' :: k < k' < n ==> s[k'] != s[k]
  }

  /** The dictionary that the assignments `d[keys[k]] = values[k]`, for `k`
      from 0 to `n - 1`, leave in an empty `d`. */
  function Filled<K(==), V>(keys: seq<K>, values: seq<V>, n: nat): map<K, V>
    requires n <= |keys| && n <= |values|
  {
    if n == 0 then map[] else Filled(keys, values, n - 1)[keys[n - 1] := values[n - 1]]
  }

  /** One more assignment. */
  lemma FilledStep<K, V>(keys: seq<K>, values: seq<V>, n: nat)
    requires n < |keys| && n < |values|
    ensures Filled(keys, values, n + 1) == Filled(keys, values, n)[keys[n] := values[n]]
  {
  }

  /** The dictionary has exactly the assigned keys. */
  lemma {:induction false} FilledKeys<K, V>(keys: seq<K>, values: seq<V>, n: nat)
    requires n <= |keys| && n <= |values|
    ensures Filled(keys, values, n).Keys == set key | key in keys[..n]
  {
    if n > 0 {
      FilledKeys(keys, values, n - 1);
      assert keys[..n] == keys[..n - 1] + [keys[n - 1]];
    }
  }

  /** A key holds the value of its last assignment. */
  lemma {:induction false} FilledLast<K, V>(keys: seq<K>, values: seq<V>, n: nat, k: int)
    requires n <= |keys| && n <= |values|
    requires LastBefore(keys, k, n)
    ensures keys[k] in Filled(keys, values, n) && Filled(keys, values, n)[keys[k]] == values[k]
  {
    if k < n - 1 {
      assert keys[n - 1] != keys[k];
      FilledLast(keys, values, n - 1, k);
    }
  }

  /** Every entry of the dictionary was written by one of the assignments. */
  lemma {:induction false} FilledFrom<K, V>(keys: seq<K>, values: seq<V>, n: nat, key: K) returns (k: int)
    requires n <= |keys| && n <= |values|
    requires key in Filled(keys, values, n)
    ensures 0 <= k < n && keys[k] == key && Filled(keys, values, n)[key] == values[k]
  {
    if keys[n - 1] == key {
      k := n - 1;
    } else {
      k := FilledFrom(keys, values, n - 1, key);
    }
  }

  /** The datasets `generate_all_datasets()` generates for the tag
      `dataType`, one per configured size, the call for the `k`-th size being
      fed the draws `draws(k)`. A tag outside the `generators` table has none:
      its first call fails. */
  function TagDatasets(dataType: string, dataSizes: seq<nat>, draws: nat -> nat -> nat): (r: seq<seq<int>>)
    ensures |r| == |dataSizes|
  {
    seq(|dataSizes|, k requires 0 <= k < |dataSizes| =>
      match ParseShape(dataType)
      case Some(shape) => Generated(shape, dataSizes[k], draws(k))
      case None => [])
  }

  /** The `k`-th of those datasets. */
  lemma TagDatasetsAt(dataType: string, dataSizes: seq<nat>, draws: nat -> nat -> nat, k: int)
    requires 0 <= k < |dataSizes|
    requires ParseShape(dataType).Some?
    ensures TagDatasets(dataType, dataSizes, draws)[k] == Generated(ParseShape(dataType).value, dataSizes[k], draws(k))
  {
  }

  /** The dictionary `{size: dataset}` stored for one tag. */
  function TagFilled(dataType: string, dataSizes: seq<nat>, draws: nat -> nat -> nat): map<nat, seq<int>>
  {
    Filled(dataSizes, TagDatasets(dataType, dataSizes, draws), |dataSizes|)
  }

  /** The dictionaries of all tags, the calls for the `ti`-th tag being fed
      the draws `draws(ti)`. */
  function TagsFilled(dataTypes: seq<string>, dataSizes: seq<nat>, draws: nat -> nat -> nat -> nat)
    : (r: seq<map<nat, seq<int>>>)
    ensures |r| == |dataTypes|
  {
    seq(|dataTypes|, ti requires 0 <= ti < |dataTypes| => TagFilled(dataTypes[ti], dataSizes, draws(ti)))
  }

  /** The nested dictionary `{tag: {size: dataset}}` of `generate_all_datasets()`;
      a repeated tag or size keeps its last dictionary or dataset. */
  function AllFilled(dataTypes: seq<string>, dataSizes: seq<nat>, draws: nat -> nat -> nat -> nat)
    : map<string, map<nat, seq<int>>>
  {
    Filled(dataTypes, TagsFilled(dataTypes, dataSizes, draws), |dataTypes|)
  }

  /** One tag's dictionary: one entry per size, holding the dataset generated
      at that size's last occurrence, a dataset of the tag's shape and of its
      size. */
  lemma TagFilledEntries(dataType: string, dataSizes: seq<nat>, draws: nat -> nat -> nat)
    requires |dataSizes| == 0 || ParseShape(dataType).Some?
    ensures TagFilled(dataType, dataSizes, draws).Keys == set size | size in dataSizes
    ensures forall k :: LastBefore(dataSizes, k, |dataSizes|) ==>
      ParseShape(dataType).Some? &&
      dataSizes[k] in TagFilled(dataType, dataSizes, draws) &&
      TagFilled(dataType, dataSizes, draws)[dataSizes[k]] == Generated(ParseShape(dataType).value, dataSizes[k], draws(k))
    ensures forall size :: size in TagFilled(dataType, dataSizes, draws) ==>
      ParseShape(dataType).Some? && Conforms(ParseShape(dataType).value, size, TagFilled(dataType, dataSizes, draws)[size])
  {
    assert dataSizes[..|dataSizes|] == dataSizes;
    if ParseShape(dataType).Some? {
      var shape := ParseShape(dataType).value;
      var values := TagDatasets(dataType, dataSizes, draws);
      FilledKeys(dataSizes, values, |dataSizes|);
      forall k | LastBefore(dataSizes, k, |dataSizes|)
        ensures dataSizes[k] in TagFilled(dataType, dataSizes, draws)
        ensures TagFilled(dataType, dataSizes, draws)[dataSizes[k]] == Generated(shape, dataSizes[k], draws(k))
      {
        FilledLast(dataSizes, values, |dataSizes|, k);
        TagDatasetsAt(dataType, dataSizes, draws, k);
      }
      forall size | size in TagFilled(dataType, dataSizes, draws)
        ensures Conforms(shape, size, TagFilled(dataType, dataSizes, draws)[size])
      {
        var k := FilledFrom(dataSizes, values, |dataSizes|, size);
        TagDatasetsAt(dataType, dataSizes, draws, k);
        GeneratedConforms(shape, size, draws(k));
      }
    }
  }

  /** The whole nested dictionary: one entry per tag and, inside it, one per
      size, holding the dataset generated at the last occurrence of both, of
      that tag's shape and that size. */
  lemma AllFilledEntries(dataTypes: seq<string>, dataSizes: seq<nat>, draws: nat -> nat -> nat -> nat)
    requires |dataSizes| == 0 || forall u :: 0 <= u < |dataTypes| ==> ParseShape(dataTypes[u]).Some?
    ensures AllFilled(dataTypes, dataSizes, draws).Keys == set t | t in dataTypes
    ensures forall t :: t in AllFilled(dataTypes, dataSizes, draws) ==>
      AllFilled(dataTypes, dataSizes, draws)[t].Keys == set size | size in dataSizes
    ensures forall ti, k ::
      LastBefore(dataTypes, ti, |dataTypes|) && LastBefore(dataSizes, k, |dataSizes|) ==>
        ParseShape(dataTypes[ti]).Some? &&
        dataTypes[ti] in AllFilled(dataTypes, dataSizes, draws) &&
        dataSizes[k] in AllFilled(dataTypes, dataSizes, draws)[dataTypes[ti]] &&
        AllFilled(dataTypes, dataSizes, draws)[dataTypes[ti]][dataSizes[k]] ==
          Generated(ParseShape(dataTypes[ti]).value, dataSizes[k], draws(ti)(k))
    ensures forall t, size ::
      t in AllFilled(dataTypes, dataSizes, draws) && size in AllFilled(dataTypes, dataSizes, draws)[t] ==>
        ParseShape(t).Some? && Conforms(ParseShape(t).value, size, AllFilled(dataTypes, dataSizes, draws)[t][size])
  {
    var m := AllFilled(dataTypes, dataSizes, draws);
    var values := TagsFilled(dataTypes, dataSizes, draws);
    FilledKeys(dataTypes, values, |dataTypes|);
    assert dataTypes[..|dataTypes|] == dataTypes;
    forall t | t in m
      ensures m[t].Keys == set size | size in dataSizes
      ensures forall size :: size in m[t] ==> ParseShape(t).Some? && Conforms(ParseShape(t).value, size, m[t][size])
    {
      var ti := FilledFrom(dataTypes, values, |dataTypes|, t);
      TagFilledEntries(t, dataSizes, draws(ti));
    }
    forall ti, k | LastBefore(dataTypes, ti, |dataTypes|) && LastBefore(dataSizes, k, |dataSizes|)
      ensures ParseShape(dataTypes[ti]).Some?
      ensures dataTypes[ti] in m && dataSizes[k] in m[dataTypes[ti]]
      ensures m[dataTypes[ti]][dataSizes[k]] == Generated(ParseShape(dataTypes[ti]).value, dataSizes[k], draws(ti)(k))
    {
      FilledLast(dataTypes, values, |dataTypes|, ti);
      TagFilledEntries(dataTypes[ti], dataSizes, draws(ti));
    }
  }

  /** The inner loop of `generate_all_datasets()`: every size for one tag, the
      call for the `si`-th size being fed the draws `draws(si)`. */
  method GenerateSizes(dataType: string, dataSizes: seq<nat>, draws: nat -> nat -> nat)
    returns (r: Result<map<nat, seq<int>>>)
    ensures r.Error? <==> |dataSizes| > 0 && ParseShape(dataType).None?
    ensures r.Error? ==> r.message == UnknownMessage(dataType)
    ensures r.Ok? ==> r.value == TagFilled(dataType, dataSizes, draws)
  {
    var inner: map<nat, seq<int>> := map[];
    var si := 0;
    while si < |dataSizes|
      invariant 0 <= si <= |dataSizes|
      invariant si > 0 ==> ParseShape(dataType).Some?
      invariant inner == Filled(dataSizes, TagDatasets(dataType, dataSizes, draws), si)
    {
      var size := dataSizes[si];
      var d := GenerateDataset(dataType, size, draws(si));
      if d.Error? {
        return Error(d.message);
      }
      TagDatasetsAt(dataType, dataSizes, draws, si);
      FilledStep(dataSizes, TagDatasets(dataType, dataSizes, draws), si);
      inner := inner[size := d.value];
      si := si + 1;
    }
    r := Ok(inner);
  }

  /** `generate_all_datasets()` over the configured tags and sizes, the call
      for the `ti`-th tag and the `si`-th size being fed the draws
      `draws(ti)(si)`. The first unknown tag aborts the whole
      run, provided there is a size to generate; otherwise every tag maps to
      every size, and the entry for a tag and a size is the dataset generated
      at their last occurrence, of that tag's shape and that size. */
  method GenerateAllDatasets(dataTypes: seq<string>, dataSizes: seq<nat>, draws: nat -> nat -> nat -> nat)
    returns (r: Result<map<string, map<nat, seq<int>>>>)
    ensures r.Error? <==>
      |dataSizes| > 0 && exists ti :: 0 <= ti < |dataTypes| && ParseShape(dataTypes[ti]).None?
    ensures r.Error? ==>
      exists ti :: 0 <= ti < |dataTypes| && ParseShape(dataTypes[ti]).None? &&
        (forall u :: 0 <= u < ti ==> ParseShape(dataTypes[u]).Some?) &&
        r.message == UnknownMessage(dataTypes[ti])
    ensures r.Ok? ==> r.value == AllFilled(dataTypes, dataSizes, draws)
    ensures r.Ok? ==> r.value.Keys == set t | t in dataTypes
    ensures r.Ok? ==> forall t :: t in r.value ==> r.value[t].Keys == set size | size in dataSizes
    ensures r.Ok? ==> forall ti, k ::
      LastBefore(dataTypes, ti, |dataTypes|) && LastBefore(dataSizes, k, |dataSizes|) ==>
        ParseShape(dataTypes[ti]).Some? &&
        r.value[dataTypes[ti]][dataSizes[k]] ==
          Generated(ParseShape(dataTypes[ti]).value, dataSizes[k], draws(ti)(k))
    ensures r.Ok? ==> forall t, size :: t in r.value && size in r.value[t] ==>
      ParseShape(t).Some? && Conforms(ParseShape(t).value, size, r.value[t][size])
  {
    var datasets: map<string, map<nat, seq<int>>> := map[];
    var ti := 0;
    while ti < |dataTypes|
      invariant 0 <= ti <= |dataTypes|
      invariant |dataSizes| > 0 ==> forall u :: 0 <= u < ti ==> ParseShape(dataTypes[u]).Some?
      invariant datasets == Filled(dataTypes, TagsFilled(dataTypes, dataSizes, draws), ti)
    {
      var dataType := dataTypes[ti];
      var inner := GenerateSizes(dataType, dataSizes, draws(ti));
      if inner.Error? {
        return Error(inner.message);
      }
      assert |dataSizes| > 0 ==> forall u :: 0 <= u < ti + 1 ==> ParseShape(dataTypes[u]).Some? by {
        if |dataSizes| > 0 {
          forall u | 0 <= u < ti + 1
            ensures ParseShape(dataTypes[u]).Some?
          {
            if u == ti {
              assert dataTypes[u] == dataType;
            }
          }
        }
      }
      FilledStep(dataTypes, TagsFilled(dataTypes, dataSizes, draws), ti);
      datasets := datasets[dataType := inner.value];
      ti := ti + 1;
    }
    AllFilledEntries(dataTypes, dataSizes, draws);
    r := Ok(datasets);
  }
}
