/** The `local-storage-vec` exercise: `LocalStorageVec<T, N>`, a list that
    keeps up to `N` elements in a fixed buffer (`Stack { buf, len }`) and
    moves them into a growable vector (`Heap(v)`) once it has to grow past
    the buffer.

    The Rust value is an enum that `push` and `insert` overwrite in place
    (`*self = Heap(v)`); here it is one object holding the fields of both
    variants, with `variant` saying which of them is live. `buf` is the
    `[T; N]` array and `heap` the `Vec<T>`. A panic is the `Panicked`
    outcome. */
module LocalStorage {
  import opened Wrappers

  datatype Variant = Stack | Heap

  /** `s` with `v` inserted before position `i`, as `Vec::insert` does. */
  function InsertAt<T>(s: seq<T>, i: nat, v: T): seq<T>
    requires i <= |s|
  {
    s[..i] + [v] + s[i..]
  }

  /** `s` without position `i`, as `Vec::remove` leaves it. */
  function RemoveAt<T>(s: seq<T>, i: nat): seq<T>
    requires i < |s|
  {
    s[..i] + s[i + 1..]
  }

  /** Removing what was just inserted gives the list back, and inserting
      what was just removed gives it back too. */
  lemma InsertRemoveInverse<T>(s: seq<T>, i: nat, v: T)
    ensures i <= |s| ==> |InsertAt(s, i, v)| == |s| + 1 && InsertAt(s, i, v)[i] == v
    ensures i <= |s| ==> RemoveAt(InsertAt(s, i, v), i) == s
    ensures i < |s| ==> InsertAt(RemoveAt(s, i), i, s[i]) == s
  {
    if i <= |s| {
      var t := InsertAt(s, i, v);
      assert t[..i] == s[..i] && t[i + 1..] == s[i..];
    }
    if i < |s| {
      assert s[..i] + [s[i]] + s[i + 1..] == s[..i] + s[i..];
      assert s[..i] + s[i..] == s;
    }
  }

  /** The slices `chunks(size)` hands out: consecutive pieces of `size`
      elements, the last one possibly shorter. */
  function ChunksOf<T>(s: seq<T>, size: nat): seq<seq<T>>
    requires size > 0
    decreases |s|
  {
    if s == [] then []
    else if |s| <= size then [s]
    else [s[..size]] + ChunksOf(s[size..], size)
  }

  function Flatten<T>(ss: seq<seq<T>>): seq<T>
  {
    if ss == [] then [] else ss[0] + Flatten(ss[1..])
  }

  /** Chunking loses and reorders nothing, and every chunk is a non-empty
      piece of at most `size` elements, all but the last exactly `size`. */
  lemma {:induction false} ChunksOfMeaning<T>(s: seq<T>, size: nat)
    requires size > 0
    ensures Flatten(ChunksOf(s, size)) == s
    ensures forall c | c in ChunksOf(s, size) :: 0 < |c| <= size
    ensures forall k | 0 <= k < |ChunksOf(s, size)| - 1 :: |ChunksOf(s, size)[k]| == size
    decreases |s|
  {
    if s != [] && |s| > size {
      var rest := ChunksOf(s[size..], size);
      ChunksOfMeaning(s[size..], size);
      assert ChunksOf(s, size) == [s[..size]] + rest;
      assert ChunksOf(s, size)[1..] == rest;
      assert s[..size] + s[size..] == s;
      forall k | 0 < k < |ChunksOf(s, size)| - 1
        ensures |ChunksOf(s, size)[k]| == size
      {
        assert ChunksOf(s, size)[k] == rest[k - 1];
      }
    } else if s != [] {
      assert ChunksOf(s, size) == [s];
      assert Flatten([s]) == s + Flatten([]);
    }
  }

  /** `LocalStorageVec<T, N>`. `capacity` is `N`. */
  class LocalStorageVec<T> {
    const capacity: nat
    /** `Stack`'s `buf: [T; N]`. */
    const buf: array<T>
    /** `Stack`'s `len`. */
    var len: nat
    var variant: Variant
    /** `Heap`'s `Vec<T>`. */
    var heap: seq<T>

    /** The buffer holds `N` slots and the live prefix fits in it. */
    ghost predicate Valid()
      reads this
    {
      buf.Length == capacity && (variant == Stack ==> len <= capacity)
    }

    /** `len()`. */
    function Len(): (n: nat)
      reads this
      requires Valid()
      ensures variant == Stack ==> n <= capacity
    {
      if variant == Stack then len else |heap|
    }

    /** `as_ref`, and equally `as_mut`, `iter`, `into_iter`, `deref` and
        `deref_mut`: the live prefix `buf[..len]` on `Stack`, the whole
        vector on `Heap`. */
    function Elements(): (s: seq<T>)
      reads this, buf
      requires Valid()
      ensures |s| == Len()
      ensures variant == Stack ==> forall i | 0 <= i < |s| :: s[i] == buf[i]
    {
      if variant == Stack then buf[..len] else heap
    }

    /** `Stack` with a free slot: the only state in which `push` and
        `insert` write into `buf`. */
    predicate HasRoom()
      reads this
    {
      variant == Stack && len < capacity
    }

    /** `new()`: an empty `Stack` whose slots all hold `T::default()`. */
    constructor New(n: nat, default: T)
      ensures Valid() && fresh(buf)
      ensures capacity == n && variant == Stack && len == 0
      ensures Elements() == []
      ensures forall i | 0 <= i < n :: buf[i] == default
    {
      capacity := n;
      buf := new T[n](_ => default);
      len := 0;
      variant := Stack;
      heap := [];
    }

    /** `From<[T; M]>`: an array of `M <= N` elements goes to the stack,
        in order, with the remaining slots `T::default()`; a longer one
        becomes the heap vector. */
    constructor FromArray(n: nat, items: seq<T>, default: T)
      ensures Valid() && fresh(buf) && capacity == n
      ensures Elements() == items
      ensures variant == (if |items| <= n then Stack else Heap)
      ensures |items| <= n ==> forall i | |items| <= i < n :: buf[i] == default
    {
      capacity := n;
      buf := new T[n](i => if 0 <= i < |items| then items[i] else default);
      len := if |items| <= n then |items| else 0;
      variant := if |items| <= n then Stack else Heap;
      heap := if |items| <= n then [] else items;
    }

    /** `From<Vec<T>>`: always the heap, whatever the length. */
    constructor FromVec(n: nat, v: seq<T>, default: T)
      ensures Valid() && fresh(buf) && capacity == n
      ensures variant == Heap && Elements() == v
    {
      capacity := n;
      buf := new T[n](_ => default);
      len := 0;
      variant := Heap;
      heap := v;
    }

    /** `Index<usize>`: panics exactly when `index` is past the live
        prefix. */
    function Get(index: nat): (r: Outcome<T>)
      reads this, buf
      requires Valid()
      ensures r.Completed? <==> index < Len()
      ensures r.Completed? ==> r.value == Elements()[index]
    {
      if variant == Stack then
        if index >= len then Panicked else Completed(buf[index])
      else if index < |heap| then Completed(heap[index])
      else Panicked
    }

    /** `Index<Range<usize>>` as written: on `Stack` the end point must be
        strictly below `len`, so `vec[a..len]` panics. */
    function Slice(start: nat, end: nat): (r: Outcome<seq<T>>)
      reads this, buf
      requires Valid()
      ensures r.Completed? <==> start <= end <= Len() && (variant == Stack ==> end < Len())
      ensures r.Completed? ==> r.value == Elements()[start..end]
    {
      if variant == Stack then
        if start >= len || end >= len || start > end then Panicked
        else Completed(buf[start..end])
      else if start <= end <= |heap| then Completed(heap[start..end])
      else Panicked
    }

    /** `Index<RangeTo<usize>>` as written: on `Stack`, `vec[..len]`
        panics. */
    function SliceTo(end: nat): (r: Outcome<seq<T>>)
      reads this, buf
      requires Valid()
      ensures r.Completed? <==> end <= Len() && (variant == Stack ==> end < Len())
      ensures r.Completed? ==> r.value == Elements()[..end]
    {
      if variant == Stack then
        if end >= len then Panicked else Completed(buf[..end])
      else if end <= |heap| then Completed(heap[..end])
      else Panicked
    }

    /** `Index<RangeFrom<usize>>` as written: on `Stack`, `vec[len..]`
        panics. */
    function SliceFrom(start: nat): (r: Outcome<seq<T>>)
      reads this, buf
      requires Valid()
      ensures r.Completed? <==> start <= Len() && (variant == Stack ==> start < Len())
      ensures r.Completed? ==> r.value == Elements()[start..]
    {
      if variant == Stack then
        if start >= len then Panicked else Completed(buf[start..len])
      else if start <= |heap| then Completed(heap[start..])
      else Panicked
    }

    /** `Index<Range<usize>>` with the bounds of slice indexing, the same
        on both variants. */
    function SliceChecked(start: nat, end: nat): (r: Outcome<seq<T>>)
      reads this, buf
      requires Valid()
      ensures r.Completed? <==> start <= end <= Len()
      ensures r.Completed? ==> r.value == Elements()[start..end]
    {
      if start <= end <= Len() then Completed(Elements()[start..end]) else Panicked
    }

    /** `Index<RangeTo<usize>>` with the bounds of slice indexing. */
    function SliceToChecked(end: nat): (r: Outcome<seq<T>>)
      reads this, buf
      requires Valid()
      ensures r.Completed? <==> end <= Len()
      ensures r.Completed? ==> r.value == Elements()[..end]
    {
      if end <= Len() then Completed(Elements()[..end]) else Panicked
    }

    /** `Index<RangeFrom<usize>>` with the bounds of slice indexing. */
    function SliceFromChecked(start: nat): (r: Outcome<seq<T>>)
      reads this, buf
      requires Valid()
      ensures r.Completed? <==> start <= Len()
      ensures r.Completed? ==> r.value == Elements()[start..]
    {
      if start <= Len() then Completed(Elements()[start..]) else Panicked
    }

    /** `chunks(size)`: the live prefix cut into pieces of `size`; the
        slice method panics on a size of 0. */
    function Chunks(size: nat): (r: Outcome<seq<seq<T>>>)
      reads this, buf
      requires Valid()
      ensures r.Panicked? <==> size == 0
      ensures r.Completed? ==> Flatten(r.value) == Elements()
      ensures r.Completed? ==> forall c | c in r.value :: 0 < |c| <= size
      ensures r.Completed? ==> forall k | 0 <= k < |r.value| - 1 :: |r.value[k]| == size
    {
      if size == 0 then Panicked
      else
        ChunksOfMeaning(Elements(), size);
        Completed(ChunksOf(Elements(), size))
    }

    /** `push`. On a full `Stack` the whole buffer is copied into a new
        vector, the value appended, and `self` becomes `Heap`; on a `Stack`
        with room the value goes into `buf[len]`; on `Heap` it is
        appended. */
    method Push(value: T)
      requires Valid()
      modifies this, buf
      ensures Valid()
      ensures Elements() == old(Elements()) + [value]
      ensures variant == (if old(variant) == Stack && !old(HasRoom()) then Heap else old(variant))
      ensures old(HasRoom()) ==> len == old(len) + 1 && buf[..] == old(buf[..])[old(len) := value]
      ensures !old(HasRoom()) ==> len == old(len) && buf[..] == old(buf[..])
      ensures variant == Stack ==> heap == old(heap)
    {
      if variant == Stack {
        if buf.Length <= len {
          var v := CopyAll(buf);
          variant, heap := Heap, v + [value];
          return;
        }
        buf[len] := value;
        len := len + 1;
      } else {
        heap := heap + [value];
      }
    }

    /** `pop`: `None` on an empty list, otherwise the last element, which
        leaves the live prefix. No slot of `buf` changes. */
    method Pop() returns (r: Option<T>)
      requires Valid()
      modifies this
      ensures Valid() && variant == old(variant)
      ensures r.None? <==> old(Elements()) == []
      ensures r.None? ==> Elements() == old(Elements())
      ensures r.Some? ==> r.value == old(Elements())[old(Len()) - 1]
      ensures r.Some? ==> Elements() == old(Elements())[..old(Len()) - 1]
      ensures variant == Stack ==> heap == old(heap)
      ensures variant == Heap ==> len == old(len)
    {
      if variant == Stack {
        if len == 0 {
          return None;
        }
        r := Some(buf[len - 1]);
        len := len - 1;
      } else {
        if heap == [] {
          return None;
        }
        r := Some(heap[|heap| - 1]);
        heap := heap[..|heap| - 1];
      }
    }

    /** `insert`, quirks included:
        - on a full `Stack` the buffer is copied into a new vector with the
          value placed before slot `index`, so for `index >= N` the value is
          dropped, and `self` becomes `Heap`;
        - on a `Stack` with room, `index > len` does nothing, and
          `index == 0` panics, because the shifting loop reads `buf[0 - 1]`;
        - on `Heap`, `Vec::insert` panics on `index > len`. */
    method Insert(index: nat, value: T) returns (r: Outcome<()>)
      requires Valid()
      modifies this, buf
      ensures Valid()
      ensures r.Panicked? <==> (old(HasRoom()) && index == 0) || (old(variant) == Heap && index > old(Len()))
      ensures variant == (if old(variant) == Stack && !old(HasRoom()) then Heap else old(variant))
      ensures r.Completed? && old(variant) == Stack && !old(HasRoom()) ==>
                Elements() == if index < capacity then InsertAt(old(Elements()), index, value) else old(Elements())
      ensures r.Completed? && old(HasRoom()) ==>
                if index > old(len) then Elements() == old(Elements()) && buf[..] == old(buf[..])
                else Elements() == InsertAt(old(Elements()), index, value) &&
                     buf[..] == InsertAt(old(buf[..len]), index, value) + old(buf[len + 1..])
      ensures r.Completed? && old(variant) == Heap ==> Elements() == InsertAt(old(Elements()), index, value)
      ensures r.Panicked? && old(variant) == Heap ==> heap == old(heap)
      ensures r.Panicked? && old(HasRoom()) ==>
                len == old(len) && buf[..] == old(buf[..1]) + old(buf[..len]) + old(buf[len + 1..])
      ensures !old(HasRoom()) ==> buf[..] == old(buf[..])
      ensures old(HasRoom()) ==> heap == old(heap)
      ensures !old(HasRoom()) ==> len == old(len)
    {
      if variant == Stack {
        if len == capacity {
          var v := CopyInserting(buf, index, value);
          variant, heap := Heap, v;
          return Completed(());
        }
        if index > len {
          return Completed(());
        }
        r := InsertIntoBuffer(buf, index, len, value);
        if r.Completed? {
          len := len + 1;
        }
      } else {
        if index > |heap| {
          return Panicked;
        }
        heap := InsertAt(heap, index, value);
        r := Completed(());
      }
    }

    /** `insert` as evidently intended: the value lands before position
        `index` whenever `index <= len`, including `index == 0` on a `Stack`
        with room and `index == N` on a full `Stack`. The other behaviour of
        `Insert` is kept: on `Stack` an `index` past the end changes no
        element, on `Heap` it panics. */
    method InsertChecked(index: nat, value: T) returns (r: Outcome<()>)
      requires Valid()
      modifies this, buf
      ensures Valid()
      ensures r.Panicked? <==> old(variant) == Heap && index > old(Len())
      ensures variant == (if old(variant) == Stack && !old(HasRoom()) then Heap else old(variant))
      ensures r.Completed? ==>
                Elements() == if index <= old(Len()) then InsertAt(old(Elements()), index, value) else old(Elements())
      ensures old(HasRoom()) && index <= old(len) ==>
                len == old(len) + 1 && buf[..] == InsertAt(old(buf[..len]), index, value) + old(buf[len + 1..])
      ensures old(HasRoom()) && index > old(len) ==> len == old(len) && buf[..] == old(buf[..])
      ensures r.Panicked? ==> heap == old(heap)
      ensures !old(HasRoom()) ==> buf[..] == old(buf[..]) && len == old(len)
      ensures old(HasRoom()) ==> heap == old(heap)
    {
      if variant == Stack {
        if len == capacity {
          var v := CopyAll(buf);
          variant, heap := Heap, if index <= |v| then InsertAt(v, index, value) else v;
          return Completed(());
        }
        if index > len {
          return Completed(());
        }
        InsertIntoBufferChecked(buf, index, len, value);
        len := len + 1;
      } else {
        if index > |heap| {
          return Panicked;
        }
        heap := InsertAt(heap, index, value);
      }
      r := Completed(());
    }

    /** `remove`: panics exactly when `index` is past the live prefix;
        otherwise returns the element at `index` and closes the gap. On
        `Stack` the slots after `index` move down one place and the last
        live slot keeps its old value. */
    method Remove(index: nat) returns (r: Outcome<T>)
      requires Valid()
      modifies this, buf
      ensures Valid() && variant == old(variant)
      ensures r.Panicked? <==> index >= old(Len())
      ensures r.Panicked? ==> Elements() == old(Elements()) && buf[..] == old(buf[..])
      ensures r.Completed? ==> r.value == old(Elements())[index]
      ensures r.Completed? ==> Elements() == RemoveAt(old(Elements()), index)
      ensures r.Completed? && variant == Stack ==>
                buf[..] == RemoveAt(old(buf[..len]), index) + old(buf[len - 1..])
      ensures variant == Heap ==> buf[..] == old(buf[..]) && len == old(len)
      ensures variant == Stack ==> heap == old(heap)
    {
      if variant == Stack {
        if len == 0 || index >= len {
          return Panicked;
        }
        var result := buf[index];
        ShiftLeft(buf, index, len);
        len := len - 1;
        r := Completed(result);
      } else {
        if index >= |heap| {
          return Panicked;
        }
        r := Completed(heap[index]);
        heap := RemoveAt(heap, index);
      }
    }

    /** `clear`: the list becomes empty; the variant and `buf` stay. */
    method Clear()
      requires Valid()
      modifies this
      ensures Valid() && variant == old(variant)
      ensures Elements() == []
      ensures variant == Stack ==> heap == old(heap)
      ensures variant == Heap ==> len == old(len)
    {
      if variant == Stack {
        len := 0;
      } else {
        heap := [];
      }
    }
  }

  /** On `Stack`, the as-written range indexing refuses the whole live
      prefix (`vec[0..len]`, `vec[..len]`) and the empty tail
      (`vec[len..]`), all of which slice indexing accepts. */
  lemma StackRejectsEndPoint<T>(v: LocalStorageVec<T>)
    requires v.Valid() && v.variant == Stack
    ensures v.Slice(0, v.Len()).Panicked? && v.SliceChecked(0, v.Len()) == Completed(v.Elements())
    ensures v.SliceTo(v.Len()).Panicked? && v.SliceToChecked(v.Len()) == Completed(v.Elements())
    ensures v.SliceFrom(v.Len()).Panicked? && v.SliceFromChecked(v.Len()) == Completed([])
  {
    assert v.Elements()[0..v.Len()] == v.Elements();
  }

  /** Below the end point the as-written indexing and slice indexing
      agree, on both variants. */
  lemma SliceAgreesBelowEnd<T>(v: LocalStorageVec<T>, start: nat, end: nat)
    requires v.Valid() && end < v.Len()
    ensures v.Slice(start, end) == v.SliceChecked(start, end)
    ensures v.SliceTo(end) == v.SliceToChecked(end)
    ensures v.SliceFrom(end) == v.SliceFromChecked(end)
  {
  }

  /** The source's `it_constructs`, `it_lens`, `it_from_vecs` and
      `it_as_refs` tests. */
  method ConstructionExamples() returns (newVariant: Variant, newLen: nat, lens: seq<nat>, fromVecs: seq<Variant>, asRefLens: seq<nat>)
    ensures newVariant == Stack && newLen == 0
    ensures lens == [3, 3]
    ensures fromVecs == [Heap, Heap]
    ensures asRefLens == [128, 128]
  {
    var e := new LocalStorageVec.New(10, 0);
    newVariant, newLen := e.variant, e.len;
    var a := new LocalStorageVec.FromArray(3, [0, 1, 2], 0);
    var b := new LocalStorageVec.FromArray(2, [0, 1, 2], 0);
    lens := [a.Len(), b.Len()];
    var c := new LocalStorageVec.FromVec(10, [1, 2, 3], 0);
    var d := new LocalStorageVec.FromVec(2, [1, 2, 3], 0);
    fromVecs := [c.variant, d.variant];
    var f := new LocalStorageVec.FromArray(256, seq(128, _ => 0), 0);
    var g := new LocalStorageVec.FromArray(32, seq(128, _ => 0), 0);
    asRefLens := [|f.Elements()|, |g.Elements()|];
  }

  /** The source's `it_clears` test, on `Stack` and on `Heap`. */
  method ClearExamples() returns (variants: seq<Variant>, lens: seq<nat>)
    ensures variants == [Stack, Heap] && lens == [0, 0]
  {
    var v := new LocalStorageVec.FromArray(10, [0, 1, 2, 3], 0);
    v.Clear();
    var w := new LocalStorageVec.FromArray(3, [0, 1, 2, 3], 0);
    w.Clear();
    variants, lens := [v.variant, w.variant], [v.Len(), w.Len()];
  }

  /** Inserting at the front of a `Stack` with room: the as-written
      `Insert` panics, because its shifting loop computes `0 - 1`, while
      `InsertChecked` puts the value first. */
  method InsertAtFrontExample() returns (asWritten: Outcome<()>, corrected: Outcome<()>, correctedElements: seq<int>)
    ensures asWritten == Panicked
    ensures corrected.Completed? && correctedElements == [9, 0, 1, 2]
  {
    var v := new LocalStorageVec.FromArray(4, [0, 1, 2], 0);
    asWritten := v.Insert(0, 9);
    var w := new LocalStorageVec.FromArray(4, [0, 1, 2], 0);
    corrected := w.InsertChecked(0, 9);
    correctedElements := w.Elements();
    assert correctedElements == InsertAt([0, 1, 2], 0, 9);
  }

  /** Inserting at position `N` of a full `Stack`: the as-written `Insert`
      moves to the heap but drops the value, since the copying loop never
      meets slot `N`; `InsertChecked` appends it. */
  method InsertAtCapacityExample() returns (asWritten: seq<int>, corrected: seq<int>)
    ensures asWritten == [0, 1, 2, 3]
    ensures corrected == [0, 1, 2, 3, 9]
  {
    var v := new LocalStorageVec.FromArray(4, [0, 1, 2, 3], 0);
    var r := v.Insert(4, 9);
    asWritten := v.Elements();
    var w := new LocalStorageVec.FromArray(4, [0, 1, 2, 3], 0);
    r := w.InsertChecked(4, 9);
    corrected := w.Elements();
  }

  /** The source's `it_inserts` test: inserting 3 at index 1. */
  method InsertExamples() returns (stackBuf: seq<int>, stackLen: nat, grown: seq<int>, grownMore: seq<int>)
    ensures stackBuf == [0, 3, 1, 2] && stackLen == 4
    ensures grown == [0, 3, 1, 2, 3] && grownMore == [0, 3, 1, 2, 3, 4]
  {
    var v := new LocalStorageVec.FromArray(4, [0, 1, 2], 0);
    assert v.buf[..3] == [0, 1, 2] && v.buf[4..] == [];
    var r := v.Insert(1, 3);
    assert InsertAt([0, 1, 2], 1, 3) == [0, 3, 1, 2];
    stackBuf, stackLen := v.buf[..], v.len;
    var w := new LocalStorageVec.FromArray(4, [0, 1, 2, 3], 0);
    r := w.Insert(1, 3);
    assert InsertAt([0, 1, 2, 3], 1, 3) == [0, 3, 1, 2, 3];
    grown := w.Elements();
    var u := new LocalStorageVec.FromArray(4, [0, 1, 2, 3, 4], 0);
    r := u.Insert(1, 3);
    assert InsertAt([0, 1, 2, 3, 4], 1, 3) == [0, 3, 1, 2, 3, 4];
    grownMore := u.Elements();
  }

  /** The source's `it_removes` test: removing index 1. */
  method RemoveExamples() returns (stackBuf: seq<int>, stackLen: nat, e1: Outcome<int>, heapContents: seq<int>, e2: Outcome<int>)
    ensures |stackBuf| == 4 && stackBuf[..2] == [0, 2] && stackLen == 2 && e1 == Completed(1)
    ensures heapContents == [0, 2] && e2 == Completed(1)
  {
    var v := new LocalStorageVec.FromArray(4, [0, 1, 2], 0);
    e1 := v.Remove(1);
    stackBuf, stackLen := v.buf[..], v.len;
    var w := new LocalStorageVec.FromArray(2, [0, 1, 2], 0);
    e2 := w.Remove(1);
    assert w.variant == Heap;
    heapContents := w.Elements();
  }

  /** The source's `it_pushes` test: 128 pushes fill a buffer of 128, the
      next 128 move it to the heap. */
  method PushExamples() returns (filled: Variant, filledLen: nat, grown: Variant, grownLen: nat)
    ensures filled == Stack && filledLen == 128
    ensures grown == Heap && grownLen == 256
  {
    var v := new LocalStorageVec.New(128, 0);
    for value := 0 to 128
      invariant v.Valid() && v.capacity == 128 && v.variant == Stack && v.len == value
    {
      v.Push(value);
    }
    filled, filledLen := v.variant, v.len;
    for value := 128 to 256
      invariant v.Valid() && v.Len() == value
      invariant v.variant == (if value == 128 then Stack else Heap)
    {
      v.Push(value);
    }
    grown, grownLen := v.variant, v.Len();
  }

  /** The source's `it_pops` test on 128 zeros in a buffer of 128: every
      pop yields 0 until the list is empty, then `None`. */
  method PopExamples() returns (popped: seq<Option<int>>, last: Option<int>)
    ensures popped == seq(128, _ => Some(0)) && last == None
  {
    var v := new LocalStorageVec.FromArray(128, seq(128, _ => 0), 0);
    popped := [];
    for i := 0 to 128
      invariant v.Valid() && v.variant == Stack
      invariant v.Elements() == seq(128 - i, _ => 0)
      invariant popped == seq(i, _ => Some(0))
    {
      var r := v.Pop();
      popped := popped + [r];
    }
    last := v.Pop();
  }

  /** The source's `it_indexes` test on `[0, 1, 2, 3, 4, 5]` in a buffer of
      10. */
  method IndexExamples() returns (one: Outcome<int>, head: Outcome<seq<int>>, tail: Outcome<seq<int>>, middle: Outcome<seq<int>>)
    ensures one == Completed(1) && head == Completed([0, 1])
    ensures tail == Completed([4, 5]) && middle == Completed([1, 2])
  {
    var v := new LocalStorageVec.FromArray(10, [0, 1, 2, 3, 4, 5], 0);
    var s := v.Elements();
    assert s[..2] == [0, 1] && s[4..] == [4, 5] && s[1..3] == [1, 2];
    one, head, tail, middle := v.Get(1), v.SliceTo(2), v.SliceFrom(4), v.Slice(1, 3);
  }

  /** The loop of `push` on a full `Stack` that clones every slot of
      `buf`, in order, into a new vector. */
  method CopyAll<T>(a: array<T>) returns (v: seq<T>)
    ensures v == a[..]
  {
    v := [];
    for i := 0 to a.Length
      invariant v == a[..i]
    {
      v := v + [a[i]];
    }
  }

  /** The loop of `insert` on a full `Stack`: every slot of `a` is cloned
      into a new vector, and `value` goes in just before slot `index` when
      the loop meets that slot, that is, only when `index < N`. */
  method CopyInserting<T>(a: array<T>, index: nat, value: T) returns (v: seq<T>)
    ensures v == if index < a.Length then InsertAt(a[..], index, value) else a[..]
  {
    v := [];
    for i := 0 to a.Length
      invariant v == if index < i then InsertAt(a[..i], index, value) else a[..i]
    {
      if i == index {
        v := v + [value];
      }
      assert a[..i + 1] == a[..i] + [a[i]];
      v := v + [a[i]];
    }
    assert a[..a.Length] == a[..];
  }

  /** The loop `for i in (index..=len).rev() { buf[i] = buf[i - 1] }` of
      `insert` on a `Stack` with room: it moves `buf[index - 1..len]` up one
      slot, and reaches `i == 0`, where `i - 1` underflows and the program
      panics, exactly when `index == 0`. */
  method ShiftRight<T>(a: array<T>, index: nat, len: nat) returns (r: Outcome<()>)
    requires index <= len < a.Length
    modifies a
    ensures r.Panicked? <==> index == 0
    ensures r.Completed? ==> a[..] == old(a[..index]) + old(a[index - 1..len]) + old(a[len + 1..])
    ensures r.Panicked? ==> a[..] == old(a[..1]) + old(a[..len]) + old(a[len + 1..])
  {
    var i: int := len;
    while index <= i
      invariant 0 <= i <= len && index <= i + 1
      invariant forall k | 0 <= k < a.Length ::
                  a[k] == if i < k <= len then old(a[k - 1]) else old(a[k])
    {
      if i == 0 {
        assert a[..] == old(a[..1]) + old(a[..len]) + old(a[len + 1..]);
        return Panicked;
      }
      a[i] := a[i - 1];
      i := i - 1;
    }
    assert a[..] == old(a[..index]) + old(a[index - 1..len]) + old(a[len + 1..]);
    r := Completed(());
  }

  /** `insert` on a `Stack` with room: the shifting loop, then
      `buf[index] = element`, which the panic at `index == 0` skips. */
  method InsertIntoBuffer<T>(a: array<T>, index: nat, len: nat, value: T) returns (r: Outcome<()>)
    requires index <= len < a.Length
    modifies a
    ensures r.Panicked? <==> index == 0
    ensures r.Completed? ==>
              && a[..len + 1] == InsertAt(old(a[..len]), index, value)
              && a[..] == InsertAt(old(a[..len]), index, value) + old(a[len + 1..])
    ensures r.Panicked? ==> a[..] == old(a[..1]) + old(a[..len]) + old(a[len + 1..])
  {
    r := ShiftRight(a, index, len);
    if r.Completed? {
      a[index] := value;
      assert a[..] == InsertAt(old(a[..len]), index, value) + old(a[len + 1..]);
      assert a[..len + 1] == InsertAt(old(a[..len]), index, value);
    }
  }

  /** `InsertChecked` on a `Stack` with room: the shifting loop, then
      `buf[index] = element`. */
  method InsertIntoBufferChecked<T>(a: array<T>, index: nat, len: nat, value: T)
    requires index <= len < a.Length
    modifies a
    ensures a[..len + 1] == InsertAt(old(a[..len]), index, value)
    ensures a[..] == InsertAt(old(a[..len]), index, value) + old(a[len + 1..])
  {
    ShiftUp(a, index, len);
    a[index] := value;
    assert a[..] == InsertAt(old(a[..len]), index, value) + old(a[len + 1..]);
    assert a[..len + 1] == InsertAt(old(a[..len]), index, value);
  }

  /** The shifting loop of `InsertChecked`,
      `for i in (index + 1..=len).rev() { buf[i] = buf[i - 1] }`: it moves
      `buf[index..len]` up one slot and never reads below `index`. */
  method ShiftUp<T>(a: array<T>, index: nat, len: nat)
    requires index <= len < a.Length
    modifies a
    ensures a[..] == old(a[..index + 1]) + old(a[index..len]) + old(a[len + 1..])
  {
    var i := len;
    while index < i
      invariant index <= i <= len
      invariant forall k | 0 <= k < a.Length ::
                  a[k] == if i < k <= len then old(a[k - 1]) else old(a[k])
    {
      a[i] := a[i - 1];
      i := i - 1;
    }
    assert a[..] == old(a[..index + 1]) + old(a[index..len]) + old(a[len + 1..]);
  }

  /** The loop `for i in index..len - 1 { buf[i] = buf[i + 1] }` of
      `remove` on `Stack`: it moves `buf[index + 1..len]` down one slot and
      leaves `buf[len - 1]` as it was. */
  method ShiftLeft<T>(a: array<T>, index: nat, len: nat)
    requires index < len <= a.Length
    modifies a
    ensures a[..] == old(a[..index]) + old(a[index + 1..len]) + old(a[len - 1..])
  {
    for i := index to len - 1
      invariant forall k | 0 <= k < a.Length ::
                  a[k] == if index <= k < i then old(a[k + 1]) else old(a[k])
    {
      a[i] := a[i + 1];
    }
    assert a[..] == old(a[..index]) + old(a[index + 1..len]) + old(a[len - 1..]);
  }
}
