/** Failure values of the converter.

    The converter raises an uncaught Python exception at each of these points;
    one constructor per raise point, so that a failing run says where it failed. */
module Results {

  datatype Error =
    | MalformedFeature(feature: string)      // a feature without exactly one `=`
    | MissingFeature(key: string)            // a feature the converter needs is absent
    | MalformedChunkType(chunkType: string)  // a chunk type without exactly one `:`
    | MalformedRelation(drel: string)        // a relation without exactly one `:`
    | DanglingRelation(target: string)       // a relation target that heads no chunk
    | NoChunkLabel(tag: string)              // a chunk tag without an upper-case letter
    | MalformedLine(line: string)            // a body line that is not four tab-separated fields

  datatype Result<T> = Ok(value: T) | Err(error: Error)

  datatype Option<T> = None | Some(value: T)

  /** `f` applied to every element of `xs` in order, the results collected;
      the first failure aborts the whole, as an uncaught exception aborts a
      loop that appends one result per element. */
  function MapAll<A, B>(f: A -> Result<B>, xs: seq<A>): (r: Result<seq<B>>)
    ensures r.Ok? ==> |r.value| == |xs|
  {
    if xs == [] then Ok([])
    else
      match MapAll(f, xs[..|xs| - 1])
      case Err(e) => Err(e)
      case Ok(ys) =>
        match f(xs[|xs| - 1])
        case Err(e) => Err(e)
        case Ok(y) => Ok(ys + [y])
  }

  /** Each result is the result of its own element. */
  lemma {:induction false} MapAllInOrder<A, B>(f: A -> Result<B>, xs: seq<A>, i: nat)
    requires MapAll(f, xs).Ok? && i < |xs|
    ensures f(xs[i]) == Ok(MapAll(f, xs).value[i])
  {
    var p := xs[..|xs| - 1];
    if i < |p| {
      MapAllInOrder(f, p, i);
      assert p[i] == xs[i];
    }
  }

  /** The whole succeeds exactly when every element does. */
  lemma {:induction false} MapAllSucceeds<A, B>(f: A -> Result<B>, xs: seq<A>)
    ensures MapAll(f, xs).Ok? <==> forall i :: 0 <= i < |xs| ==> f(xs[i]).Ok?
  {
    if xs != [] {
      var p := xs[..|xs| - 1];
      MapAllSucceeds(f, p);
      assert forall i :: 0 <= i < |p| ==> p[i] == xs[i];
    }
  }

  /** Otherwise the first failing element is the one reported. */
  lemma {:induction false} MapAllFirstError<A, B>(f: A -> Result<B>, xs: seq<A>, i: nat)
    requires i < |xs| && f(xs[i]).Err?
    requires forall j :: 0 <= j < i ==> f(xs[j]).Ok?
    ensures MapAll(f, xs) == Err(f(xs[i]).error)
  {
    var p := xs[..|xs| - 1];
    if i == |xs| - 1 {
      MapAllSucceeds(f, p);
    } else {
      MapAllFirstError(f, p, i);
    }
  }

  lemma MapAllStep<A, B>(f: A -> Result<B>, xs: seq<A>, i: nat)
    requires i < |xs|
    ensures MapAll(f, xs[..i + 1]) ==
      match MapAll(f, xs[..i])
      case Err(e) => Err(e)
      case Ok(ys) =>
        match f(xs[i])
        case Err(e) => Err(e)
        case Ok(y) => Ok(ys + [y])
  {
    assert xs[..i + 1][..i] == xs[..i];
  }

  /** A failure after a successful prefix is the failure of the whole. */
  lemma MapAllFailAt<A, B>(f: A -> Result<B>, xs: seq<A>, i: nat, ys: seq<B>)
    requires i < |xs| && MapAll(f, xs[..i]) == Ok(ys) && f(xs[i]).Err?
    ensures MapAll(f, xs) == Err(f(xs[i]).error)
  {
    forall j | 0 <= j < i
      ensures f(xs[j]).Ok?
    {
      MapAllInOrder(f, xs[..i], j);
    }
    MapAllFirstError(f, xs, i);
  }

  /** The dictionary built by reading every element of `xs` in order into a
      key and a value and storing it, a later key overwriting an earlier
      equal one; the first element that cannot be read aborts the whole. */
  function BuildMap<A, K, V>(read: A -> Result<(K, V)>, xs: seq<A>): Result<map<K, V>>
  {
    if xs == [] then Ok(map[])
    else
      match BuildMap(read, xs[..|xs| - 1])
      case Err(e) => Err(e)
      case Ok(m) =>
        match read(xs[|xs| - 1])
        case Err(e) => Err(e)
        case Ok((k, v)) => Ok(m[k := v])
  }

  /** The dictionary is built exactly when every element can be read. */
  lemma {:induction false} BuildMapSucceeds<A, K, V>(read: A -> Result<(K, V)>, xs: seq<A>)
    ensures BuildMap(read, xs).Ok? <==> forall i :: 0 <= i < |xs| ==> read(xs[i]).Ok?
  {
    if xs != [] {
      var p := xs[..|xs| - 1];
      BuildMapSucceeds(read, p);
      assert forall i :: 0 <= i < |p| ==> p[i] == xs[i];
    }
  }

  /** Otherwise the first element that cannot be read is the one reported. */
  lemma {:induction false} BuildMapFirstError<A, K, V>(read: A -> Result<(K, V)>, xs: seq<A>, i: nat)
    requires i < |xs| && read(xs[i]).Err?
    requires forall j :: 0 <= j < i ==> read(xs[j]).Ok?
    ensures BuildMap(read, xs) == Err(read(xs[i]).error)
  {
    var p := xs[..|xs| - 1];
    if i == |xs| - 1 {
      BuildMapSucceeds(read, p);
    } else {
      BuildMapFirstError(read, p, i);
    }
  }

  /** A key is in the dictionary exactly when some element is read with it. */
  lemma {:induction false} BuildMapKeys<A, K, V>(read: A -> Result<(K, V)>, xs: seq<A>, key: K)
    requires BuildMap(read, xs).Ok?
    ensures key in BuildMap(read, xs).value <==>
              exists i :: 0 <= i < |xs| && read(xs[i]).Ok? && read(xs[i]).value.0 == key
  {
    if xs != [] {
      var n := |xs| - 1;
      var p := xs[..n];
      BuildMapKeys(read, p, key);
      var m := BuildMap(read, p).value;
      var last := read(xs[n]).value;
      assert BuildMap(read, xs).value == m[last.0 := last.1];
      if key == last.0 {
        assert read(xs[n]).value.0 == key;
      } else if key in m {
        var i :| 0 <= i < |p| && read(p[i]).Ok? && read(p[i]).value.0 == key;
        assert xs[i] == p[i];
      } else {
        forall i | 0 <= i < |xs|
          ensures !(read(xs[i]).Ok? && read(xs[i]).value.0 == key)
        {
          if i < n {
            assert xs[i] == p[i];
          } else {
            assert i == n;
          }
        }
      }
    }
  }

  /** The last element read with a given key decides its value. */
  lemma {:induction false} BuildMapLastWins<A, K, V>(read: A -> Result<(K, V)>, xs: seq<A>, i: nat, key: K, value: V)
    requires BuildMap(read, xs).Ok?
    requires i < |xs| && read(xs[i]) == Ok((key, value))
    requires forall j :: i < j < |xs| ==> !(read(xs[j]).Ok? && read(xs[j]).value.0 == key)
    ensures key in BuildMap(read, xs).value && BuildMap(read, xs).value[key] == value
  {
    var n := |xs| - 1;
    if i < n {
      var p := xs[..n];
      assert p[i] == xs[i];
      BuildMapLastWins(read, p, i, key, value);
    }
  }

  lemma BuildMapStep<A, K, V>(read: A -> Result<(K, V)>, xs: seq<A>, i: nat)
    requires i < |xs|
    ensures BuildMap(read, xs[..i + 1]) ==
      match BuildMap(read, xs[..i])
      case Err(e) => Err(e)
      case Ok(m) =>
        match read(xs[i])
        case Err(e) => Err(e)
        case Ok((k, v)) => Ok(m[k := v])
  {
    assert xs[..i + 1][..i] == xs[..i];
  }

  /** The blocks `f(0)`, …, `f(n - 1)` concatenated in order; the first block
      that fails aborts the whole. */
  function ConcatAll<T>(f: nat -> Result<seq<T>>, n: nat): Result<seq<T>>
  {
    if n == 0 then Ok([])
    else
      match ConcatAll(f, n - 1)
      case Err(e) => Err(e)
      case Ok(xs) =>
        match f(n - 1)
        case Err(e) => Err(e)
        case Ok(b) => Ok(xs + b)
  }

  /** The whole succeeds exactly when every block does. */
  lemma {:induction false} ConcatAllSucceeds<T>(f: nat -> Result<seq<T>>, n: nat)
    ensures ConcatAll(f, n).Ok? <==> forall p :: 0 <= p < n ==> f(p).Ok?
  {
    if n > 0 {
      ConcatAllSucceeds(f, n - 1);
    }
  }

  /** Once a prefix has failed, every longer one fails the same way. */
  lemma {:induction false} ConcatAllFailed<T>(f: nat -> Result<seq<T>>, n: nat, m: nat)
    requires n <= m && ConcatAll(f, n).Err?
    ensures ConcatAll(f, m) == ConcatAll(f, n)
  {
    if n < m {
      ConcatAllFailed(f, n, m - 1);
    }
  }

  /** Block `p` sits in the whole right after the blocks before it. */
  lemma {:induction false} ConcatAllBlock<T>(f: nat -> Result<seq<T>>, n: nat, p: nat)
    requires p < n && ConcatAll(f, n).Ok?
    ensures ConcatAll(f, p).Ok? && f(p).Ok?
    ensures |ConcatAll(f, p).value| + |f(p).value| <= |ConcatAll(f, n).value|
    ensures ConcatAll(f, n).value[|ConcatAll(f, p).value|..|ConcatAll(f, p).value| + |f(p).value|] == f(p).value
  {
    var prev := ConcatAll(f, n - 1).value;
    var last := f(n - 1).value;
    assert ConcatAll(f, n).value == prev + last;
    if p < n - 1 {
      ConcatAllBlock(f, n - 1, p);
      var lo := |ConcatAll(f, p).value|;
      var hi := lo + |f(p).value|;
      assert (prev + last)[lo..hi] == prev[lo..hi];
    } else {
      assert (prev + last)[|prev|..|prev| + |last|] == last;
    }
  }
}
