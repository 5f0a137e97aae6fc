/** The lazily parsed result set of a bulk XML download: records are parsed from the
    archive's files in order, on demand, and kept in a cache indexed by position. The
    archive and its parser are outside the model; each file is given as the records it
    parses to. */
module XmlSet {
  import opened Outcomes
  import opened Fields
  import opened Arithmetic

  /** The records of the files, one file after the other. */
  function Concat(files: seq<seq<Record>>): (r: seq<Record>)
    ensures files != [] ==> r == files[0] + Concat(files[1..])
  {
    if files == [] then [] else files[0] + Concat(files[1..])
  }

  /** The cached records `0 .. n - 1`, in order. */
  function CachedPrefix(cache: map<int, Record>, n: nat): (r: seq<Record>)
    requires forall i | 0 <= i < n :: i in cache
    ensures |r| == n
    ensures forall i | 0 <= i < n :: r[i] == cache[i]
  {
    if n == 0 then [] else CachedPrefix(cache, n - 1) + [cache[n - 1]]
  }

  /** Caching one more record extends the cached prefix by it. */
  lemma PrefixExtends(cache: map<int, Record>, n: nat, record: Record)
    requires forall i | 0 <= i < n :: i in cache
    ensures CachedPrefix(cache[n := record], n + 1) == CachedPrefix(cache, n) + [record]
  {
    var longer, shorter := CachedPrefix(cache[n := record], n + 1), CachedPrefix(cache, n);
    forall i | 0 <= i < n + 1 ensures longer[i] == (shorter + [record])[i] {
      if i < n {
        assert longer[i] == cache[i] == shorter[i];
      }
    }
  }

  /** Moving the head of the pending records to the end of the cached ones keeps the stream. */
  lemma MoveAcross(prefix: seq<Record>, record: Record, rest: seq<Record>, tail: seq<Record>)
    ensures prefix + ([record] + rest + tail) == (prefix + [record]) + (rest + tail)
  {
  }

  /** The position a key reads: a negative key counts from the length, but the length
      minus the key lies beyond the end. */
  function Index(length: nat, key: int): (k: nat)
    ensures key >= 0 ==> k == key
    ensures key < 0 ==> length < k
  {
    if key < 0 then length - key else key
  }

  /** Python's `range(n)[start:stop:step]`: the positions a slice selects. */
  function SliceIndices(n: nat, start: Option<int>, stop: Option<int>, step: Option<int>)
    : (r: Result<seq<int>>)
    ensures r.Failure? <==> step == Some(0)
    ensures r.Failure? ==> r.error == ValueError
    ensures r.Success? ==> forall j | 0 <= j < |r.value| :: 0 <= r.value[j] < n
    ensures r.Success? ==>
      var stride := if step.Some? then step.value else 1;
      forall j | 0 < j < |r.value| :: r.value[j] == r.value[j - 1] + stride
  {
    var stride := if step.Some? then step.value else 1;
    if stride == 0 then Failure(ValueError)
    else if stride > 0 then
      var first := if start.Some? then Clamp(start.value, n, 0, n) else 0;
      var last := if stop.Some? then Clamp(stop.value, n, 0, n) else n;
      Success(Upward(first, last, stride))
    else
      var first := if start.Some? then Clamp(start.value, n, -1, n - 1) else n - 1;
      var last := if stop.Some? then Clamp(stop.value, n, -1, n - 1) else -1;
      Success(Downward(first, last, stride))
  }

  /** A slice bound: a negative one counts from the end, and the result is held between
      `lower` and `upper`. */
  function Clamp(x: int, n: nat, lower: int, upper: int): (r: int)
    requires lower <= upper
    ensures lower <= r <= upper
  {
    var y := if x < 0 then x + n else x;
    if y < lower then lower else if y > upper then upper else y
  }

  /** `first`, `first + stride`, ... while below `last`. */
  function Upward(first: int, last: int, stride: int): (r: seq<int>)
    requires stride > 0
    ensures forall j | 0 <= j < |r| :: first <= r[j] < last
    ensures forall j | 0 < j < |r| :: r[j] == r[j - 1] + stride
    ensures r != [] ==> r[0] == first
    decreases last - first
  {
    if first >= last then [] else [first] + Upward(first + stride, last, stride)
  }

  /** `first`, `first + stride`, ... while above `last`, for a negative `stride`. */
  function Downward(first: int, last: int, stride: int): (r: seq<int>)
    requires stride < 0
    ensures forall j | 0 <= j < |r| :: last < r[j] <= first
    ensures forall j | 0 < j < |r| :: r[j] == r[j - 1] + stride
    ensures r != [] ==> r[0] == first
    decreases first - last
  {
    if first <= last then [] else [first] + Downward(first + stride, last, stride)
  }

  /** A slice with a positive step selects exactly the positions from `first` below
      `last` that are a whole number of steps past `first`. */
  lemma {:induction false} UpwardMembers(first: int, last: int, stride: int, p: int)
    requires stride > 0
    ensures p in Upward(first, last, stride) <==> first <= p < last && (p - first) % stride == 0
    decreases last - first
  {
    if first < last {
      UpwardMembers(first + stride, last, stride, p);
      assert Upward(first, last, stride) == [first] + Upward(first + stride, last, stride);
      StepRemainder(p - first, stride);
    }
  }

  /** A slice with a negative step selects exactly the positions from `first` down to
      above `last` that are a whole number of steps below `first`. */
  lemma {:induction false} DownwardMembers(first: int, last: int, stride: int, p: int)
    requires stride < 0
    ensures p in Downward(first, last, stride) <==> last < p <= first && (first - p) % -stride == 0
    decreases first - last
  {
    if first > last {
      var step, rest := -stride, Downward(first + stride, last, stride);
      DownwardMembers(first + stride, last, stride, p);
      assert Downward(first, last, stride) == [first] + rest;
      StepRemainder(first - p, step);
      if p == first {
        assert p !in rest;
      } else if p < first {
        assert p in Downward(first, last, stride) <==> p in rest;
        assert (first + stride) - p == (first - p) - step;
      }
    }
  }

  /** Shifting by one step keeps the remainder; below one step only 0 is a multiple. */
  lemma StepRemainder(x: int, stride: int)
    requires stride > 0
    ensures x >= stride ==> x % stride == (x - stride) % stride
    ensures 0 < x < stride ==> x % stride != 0
    ensures x == 0 ==> x % stride == 0
  {
    var q, r := x / stride, x % stride;
    assert x - stride == (q - 1) * stride + r;
    RemainderUnique(x - stride, stride, q - 1, r);
    if 0 < x < stride {
      RemainderUnique(x, stride, 0, x);
    }
  }

  /** `self[start:stop:step]` with a positive step reads exactly the positions from the
      clamped start below the clamped stop that are a whole number of steps past the start. */
  lemma SliceMembers(n: nat, start: Option<int>, stop: Option<int>, stride: int, p: int)
    requires stride > 0
    ensures var first := if start.Some? then Clamp(start.value, n, 0, n) else 0;
            var last := if stop.Some? then Clamp(stop.value, n, 0, n) else n;
            (p in SliceIndices(n, start, stop, Some(stride)).value
             <==> first <= p < last && (p - first) % stride == 0)
  {
    var first := if start.Some? then Clamp(start.value, n, 0, n) else 0;
    var last := if stop.Some? then Clamp(stop.value, n, 0, n) else n;
    UpwardMembers(first, last, stride, p);
  }

  /** `self[start:stop:step]` with a negative step reads exactly the positions from the
      clamped start down to above the clamped stop that are a whole number of steps below
      the start. */
  lemma SliceMembersDownward(n: nat, start: Option<int>, stop: Option<int>, stride: int, p: int)
    requires stride < 0
    ensures var first := if start.Some? then Clamp(start.value, n, -1, n - 1) else n - 1;
            var last := if stop.Some? then Clamp(stop.value, n, -1, n - 1) else -1;
            (p in SliceIndices(n, start, stop, Some(stride)).value
             <==> last < p <= first && (first - p) % -stride == 0)
  {
    var first := if start.Some? then Clamp(start.value, n, -1, n - 1) else n - 1;
    var last := if stop.Some? then Clamp(stop.value, n, -1, n - 1) else -1;
    DownwardMembers(first, last, stride, p);
  }

  /** `self[:]` reads every position in order. */
  lemma {:induction false} WholeSlice(n: nat)
    ensures SliceIndices(n, None, None, None) == Success(seq(n, i => i))
  {
    UpwardByOne(0, n);
    assert seq(n - 0, i => 0 + i) == seq(n, i => i);
  }

  lemma {:induction false} UpwardByOne(first: int, last: int)
    requires first <= last
    ensures Upward(first, last, 1) == seq(last - first, i => first + i)
    decreases last - first
  {
    if first < last {
      UpwardByOne(first + 1, last);
    }
  }

  /** `USApplicationXmlSet`: the cache of parsed records, the number of records parsed so
      far, the rest of the open file and the files not yet opened. */
  class XmlResultSet {
    var length: nat
    var cache: map<int, Record>
    var counter: nat
    var openFile: seq<Record>
    var files: seq<seq<Record>>

    /** The cache holds exactly the records parsed so far. */
    ghost predicate Valid()
      reads this
    {
      forall i :: i in cache <==> 0 <= i < counter
    }

    /** The records not yet parsed, in the order they will be read. */
    function Pending(): seq<Record>
      reads this
    {
      openFile + Concat(files)
    }

    /** Every record of the archive: those parsed, then those still to come. */
    ghost function Stream(): (s: seq<Record>)
      requires Valid()
      reads this
      ensures |s| == counter + |Pending()|
      ensures forall i | 0 <= i < counter :: s[i] == cache[i]
    {
      CachedPrefix(cache, counter) + Pending()
    }

    /** A set over the archive's files that the search said holds `length` records;
        nothing is parsed yet. */
    constructor (archive: seq<seq<Record>>, length: nat)
      ensures Valid() && Stream() == Concat(archive)
      ensures this.length == length && counter == 0 && cache == map[]
    {
      this.length := length;
      cache := map[];
      counter := 0;
      openFile := [];
      files := archive;
    }

    /** `next(self.open_file)` and caching what it parses to: the next record of the
        archive is cached at position `counter`. */
    method CacheNext()
      requires Valid() && openFile != []
      modifies this
      ensures Valid() && Stream() == old(Stream())
      ensures counter == old(counter) + 1 && cache == old(cache)[old(counter) := old(openFile[0])]
      ensures length == old(length) && files == old(files)
    {
      var record := openFile[0];
      ghost var prefix, tail := CachedPrefix(cache, counter), Concat(files);
      assert openFile == [record] + openFile[1..];
      PrefixExtends(cache, counter, record);
      MoveAcross(prefix, record, openFile[1..], tail);
      cache := cache[counter := record];
      counter := counter + 1;
      openFile := openFile[1..];
    }

    /** Opening the first file not yet read, once the open one is used up. */
    method OpenNext()
      requires Valid() && openFile == [] && files != []
      modifies this
      ensures Valid() && Stream() == old(Stream())
      ensures openFile == old(files[0]) && files == old(files[1..])
      ensures counter == old(counter) && cache == old(cache) && length == old(length)
    {
      openFile := files[0];
      files := files[1..];
    }

    /** `parse_item(key)`: parses records in order until the one at `key` is cached.
        It fails with IndexError once every file has been opened and read. The archive's
        records and the ones cached before are kept; the counter never goes back. */
    method ParseItem(key: int) returns (r: Result<()>)
      requires Valid()
      modifies this
      ensures Valid() && Stream() == old(Stream()) && length == old(length)
      ensures old(counter) <= counter
      ensures forall i | i in old(cache) :: i in cache && cache[i] == old(cache[i])
      ensures r.Success? <==> key < |Stream()|
      ensures r.Success? ==> counter == if key < old(counter) then old(counter) else key + 1
      ensures r.Failure? ==> r.error == IndexError && counter == |Stream()|
    {
      ghost var stream := Stream();
      while counter <= key
        invariant Valid() && Stream() == stream && length == old(length)
        invariant if old(counter) <= key then old(counter) <= counter <= key + 1 else counter == old(counter)
        decreases key - counter, |files|
      {
        if openFile != [] {
          CacheNext();
        } else if files != [] {
          OpenNext();
        } else {
          return Failure(IndexError);
        }
      }
      return Success(());
    }

    /** `self[key]` for an integer key: the record at the position the key reads, parsed
        first when it is not cached. A cached record is returned without any change. */
    method GetItem(key: int) returns (r: Result<Record>)
      requires Valid()
      modifies this
      ensures Valid() && Stream() == old(Stream()) && length == old(length)
      ensures r.Success? <==> Index(length, key) < |Stream()|
      ensures r.Success? ==> r.value == Stream()[Index(length, key)]
      ensures r.Failure? ==> r.error == IndexError
      ensures r.Success? ==>
        counter == if Index(length, key) < old(counter) then old(counter) else Index(length, key) + 1
      ensures r.Failure? ==> counter == |Stream()|
      ensures Index(length, key) < old(counter) ==> unchanged(this)
    {
      var k := if key < 0 then length - key else key;
      if k !in cache {
        var parsed := ParseItem(k);
        if parsed.Failure? {
          return Failure(IndexError);
        }
      }
      return Success(cache[k]);
    }

    /** `self[start:stop:step]`: the records at the positions the slice selects from
        `range(len(self))`, read one after the other; ValueError for a zero step,
        IndexError when a selected position lies beyond the archive. */
    method GetSlice(start: Option<int>, stop: Option<int>, step: Option<int>)
      returns (r: Result<seq<Record>>)
      requires Valid()
      modifies this
      ensures Valid() && Stream() == old(Stream()) && length == old(length)
      ensures SliceIndices(length, start, stop, step).Failure? ==> r == Failure(ValueError)
      ensures SliceIndices(length, start, stop, step).Success? ==>
        var positions := SliceIndices(length, start, stop, step).value;
        && (r.Success? <==> forall j | 0 <= j < |positions| :: positions[j] < |Stream()|)
        && (r.Success? ==> |r.value| == |positions|
                           && forall j | 0 <= j < |positions| :: r.value[j] == Stream()[positions[j]])
        && (r.Success? ==> counter == Reach(old(counter), positions))
        && (r.Failure? ==> r.error == IndexError && counter == |Stream()|)
    {
      var slice := SliceIndices(length, start, stop, step);
      if slice.Failure? {
        return Failure(ValueError);
      }
      r := ReadPositions(slice.value);
    }

    /** `[self[index] for index in indices]` for non-negative indices: the archive's
        records at those positions, or IndexError at the first one beyond it. */
    method ReadPositions(positions: seq<int>) returns (r: Result<seq<Record>>)
      requires Valid()
      requires forall j | 0 <= j < |positions| :: 0 <= positions[j]
      modifies this
      ensures Valid() && Stream() == old(Stream()) && length == old(length)
      ensures r.Success? <==> forall j | 0 <= j < |positions| :: positions[j] < |Stream()|
      ensures r.Success? ==> |r.value| == |positions|
                             && forall j | 0 <= j < |positions| :: r.value[j] == Stream()[positions[j]]
      ensures r.Success? ==> counter == Reach(old(counter), positions)
      ensures r.Failure? ==> r.error == IndexError && counter == |Stream()|
    {
      ghost var stream := Stream();
      var records := [];
      for j := 0 to |positions|
        invariant Valid() && Stream() == stream && length == old(length)
        invariant counter == Reach(old(counter), positions[..j])
        invariant |records| == j
        invariant forall m | 0 <= m < j :: positions[m] < |stream| && records[m] == stream[positions[m]]
      {
        ReachNext(old(counter), positions, j);
        assert Index(length, positions[j]) == positions[j];
        var record := GetItem(positions[j]);
        if record.Failure? {
          return Failure(IndexError);
        }
        records := records + [record.value];
      }
      assert positions[..|positions|] == positions;
      return Success(records);
    }
  }

  /** How far the counter has got after reading the positions `ps` in order from a
      counter of `c`: a position already passed leaves it, any other moves it just past
      that position. */
  function Reach(c: int, ps: seq<int>): int {
    if ps == [] then c
    else
      var before := Reach(c, ps[..|ps| - 1]);
      var p := ps[|ps| - 1];
      if p < before then before else p + 1
  }

  lemma ReachNext(c: int, ps: seq<int>, j: int)
    requires 0 <= j < |ps|
    ensures Reach(c, ps[..j + 1]) == (if ps[j] < Reach(c, ps[..j]) then Reach(c, ps[..j]) else ps[j] + 1)
  {
    assert ps[..j + 1][..j] == ps[..j];
  }

  /** The counter after reading `ps` is the larger of its start and one past the largest
      position read: never below either, and equal to one of them. */
  lemma {:induction false} ReachIsMaximum(c: int, ps: seq<int>)
    ensures c <= Reach(c, ps)
    ensures forall j | 0 <= j < |ps| :: ps[j] < Reach(c, ps)
    ensures Reach(c, ps) == c || exists j | 0 <= j < |ps| :: Reach(c, ps) == ps[j] + 1
  {
    if ps != [] {
      var front, p := ps[..|ps| - 1], ps[|ps| - 1];
      ReachIsMaximum(c, front);
      forall j | 0 <= j < |front| ensures ps[j] == front[j] {}
      if Reach(c, front) != c {
        var j :| 0 <= j < |front| && Reach(c, front) == front[j] + 1;
        assert ps[j] == front[j];
      }
    }
  }

  /** After reading position `k`, every position up to `k` is cached and holds the
      archive's record there. */
  lemma CachedUpTo(s: XmlResultSet, k: nat)
    requires s.Valid() && k < s.counter
    ensures forall i | 0 <= i <= k :: i in s.cache && s.cache[i] == s.Stream()[i]
  {
  }
}
