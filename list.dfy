/**
 * The List wrapper: a view over a host Array (its inner array). Values are
 * internalized on the way in and externalized on the way out; operations that
 * change the List change that Array in place.
 */
module IndifferentList {
  import opened Wrappers
  import opened Keys
  import opened Values
  import opened Equality
  import opened NativeArray

  // ---------------------------------------------------------------- construction

  /**
   * List#initialize: a List over the basis's own Array (a List's inner array,
   * an Array, or what `to_ary` yields); anything else raises ArgumentError.
   */
  function Construct(basis: Val): (r: Result<ArrayBox>)
    ensures r.Success? <==> ListTryConvert(basis).Some?
    ensures r.Success? ==> Externalize(basis) == ListView(r.value) && Internalize(basis) == RawArray(r.value)
    ensures r.Failure? ==> r.error == ArgumentError
  {
    match ListTryDeconstruct(basis)
    case Some(a) => Success(a)
    case None => Failure(ArgumentError)
  }

  /** List.new over a new Array holding the given items. */
  method NewList(items: seq<Val>) returns (r: Val)
    ensures r.ListView? && fresh(r.innerArray) && r.innerArray.items == items
  {
    var a := new ArrayBox(items);
    r := ListView(a);
  }

  function InternalizeAll(vs: seq<Val>): (r: seq<Val>)
    ensures |r| == |vs| && forall i :: 0 <= i < |vs| ==> r[i] == Internalize(vs[i])
  {
    seq(|vs|, i requires 0 <= i < |vs| => Internalize(vs[i]))
  }

  function ExternalizeAll(vs: seq<Val>): (r: seq<Val>)
    ensures |r| == |vs| && forall i :: 0 <= i < |vs| ==> r[i] == Externalize(vs[i])
  {
    seq(|vs|, i requires 0 <= i < |vs| => Externalize(vs[i]))
  }

  // ---------------------------------------------------------------- reading

  /** List#at and List#[](index): the externalized item, nil out of range. */
  function ItemAt(xs: seq<Val>, i: int): (r: Val)
    ensures 0 <= i < |xs| ==> r == Externalize(xs[i])
    ensures -|xs| <= i < 0 ==> r == Externalize(xs[|xs| + i])
    ensures i >= |xs| || i < -|xs| ==> r == Nil
  {
    Externalize(Entry(xs, i))
  }

  /** List#each: the externalized items in order. */
  function Each(xs: seq<Val>): (r: seq<Val>)
    ensures |r| == |xs| && forall i :: 0 <= i < |xs| ==> r[i] == ItemAt(xs, i)
  {
    ExternalizeAll(xs)
  }

  /**
   * What Array#[] gives for a span read (a Range, or a start with a length):
   * TypeError for a Range with a length or a non-integer length, None where
   * the host answers nil, else the selected items.
   */
  function SpanRead(xs: seq<Val>, index: Index, more: seq<Val>): (r: Result<Option<seq<Val>>>)
    requires |more| <= 1
    ensures more == [] && index.Span? ==> r == Success(SliceRange(xs, index.range))
    ensures |more| == 1 && index.At? && IntegerArg(more[0]).Success? ==>
      r == Success(SliceStartLength(xs, index.i, IntegerArg(more[0]).value))
    ensures |more| == 1 && (index.Span? || IntegerArg(more[0]).Failure?) ==> r == Failure(TypeError)
  {
    if more == [] then
      match index
      case Span(rg) => Success(SliceRange(xs, rg))
      case At(i) => Success(Some([Entry(xs, i)]))
    else if index.Span? then Failure(TypeError)
    else
      match IntegerArg(more[0])
      case Failure(e) => Failure(e)
      case Success(n) => Success(SliceStartLength(xs, index.i, n))
  }

  /**
   * List#[] / slice(index, *maybe_length): with one integer index, the
   * externalized item; with a span, a new List over the externalized items;
   * where the host answers nil for the span, nil. More than two arguments
   * raise ArgumentError.
   */
  method Slice(l: ArrayBox, index: Index, more: seq<Val>) returns (r: Result<Val>)
    ensures |more| > 1 ==> r == Failure(ArgumentError)
    ensures more == [] && index.At? ==> r == Success(ItemAt(l.items, index.i))
    ensures |more| <= 1 && (more != [] || index.Span?) ==>
      match SpanRead(l.items, index, more)
      case Failure(e) => r == Failure(e)
      case Success(None) => r == Success(Nil)
      case Success(Some(ys)) =>
        r.Success? && r.value.ListView? && fresh(r.value.innerArray) && r.value.innerArray.items == ExternalizeAll(ys)
  {
    if |more| > 1 {
      return Failure(ArgumentError);
    }
    if more == [] && index.At? {
      return Success(ItemAt(l.items, index.i));
    }
    match SpanRead(l.items, index, more)
    case Failure(e) =>
      r := Failure(e);
    case Success(None) =>
      r := Success(Nil);
    case Success(Some(ys)) =>
      var list := NewList(ExternalizeAll(ys));
      r := Success(list);
  }

  /**
   * List#[] exactly as written: the span read's result is mapped with `map!`
   * before it is wrapped, so where the host answers nil the call raises
   * NoMethodError.
   */
  method SliceAsWritten(l: ArrayBox, index: Index, more: seq<Val>) returns (r: Result<Val>)
    ensures |more| > 1 ==> r == Failure(ArgumentError)
    ensures more == [] && index.At? ==> r == Success(ItemAt(l.items, index.i))
    ensures |more| <= 1 && (more != [] || index.Span?) ==>
      match SpanRead(l.items, index, more)
      case Failure(e) => r == Failure(e)
      case Success(None) => r == Failure(NoMethodError)
      case Success(Some(ys)) =>
        r.Success? && r.value.ListView? && fresh(r.value.innerArray) && r.value.innerArray.items == ExternalizeAll(ys)
  {
    if |more| > 1 {
      return Failure(ArgumentError);
    }
    if more == [] && index.At? {
      return Success(ItemAt(l.items, index.i));
    }
    match SpanRead(l.items, index, more)
    case Failure(e) =>
      r := Failure(e);
    case Success(None) =>
      r := Failure(NoMethodError);
    case Success(Some(ys)) =>
      var list := NewList(ExternalizeAll(ys));
      r := Success(list);
  }

  /** `list[4, 1]` on a three-item List: the host answers nil, so the code as written raises NoMethodError. */
  lemma SliceAsWrittenRaisesPastEnd(xs: seq<Val>)
    requires |xs| == 3
    ensures SpanRead(xs, At(4), [Atom(Int(1))]) == Success(None)
    ensures SpanRead(xs, At(-4), [Atom(Int(1))]) == Success(None)
    ensures SpanRead(xs, At(0), [Atom(Int(-1))]) == Success(None)
    ensures SpanRead(xs, Span(Range(4, 5, false)), []) == Success(None)
  {
  }

  /** The corrected List#[] never raises except for a wrong argument count or a non-integer argument. */
  lemma SliceFailsOnlyOnArguments(xs: seq<Val>, index: Index, more: seq<Val>)
    requires |more| <= 1 && (more != [] || index.Span?)
    ensures SpanRead(xs, index, more).Failure? ==> SpanRead(xs, index, more).error == TypeError
    ensures SpanRead(xs, index, more) == Success(None) <==>
      (more == [] && ReadBounds(index.range, |xs|).None?) ||
      (|more| == 1 && index.At? && IntegerArg(more[0]).Success? &&
       SliceStartLength(xs, index.i, IntegerArg(more[0]).value).None?)
  {
  }

  /**
   * List#fetch(index, *args) with an optional block: Array#fetch on the inner
   * array, externalized.
   */
  function Fetch(xs: seq<Val>, i: int, more: seq<Val>, block: Option<int -> Val>): (r: Result<Val>)
    ensures |more| > 1 ==> r == Failure(ArgumentError)
    ensures |more| <= 1 && -|xs| <= i < |xs| ==> r == Success(ItemAt(xs, i))
    ensures |more| <= 1 && !(-|xs| <= i < |xs|) && block.Some? ==> r == Success(Externalize(block.value(i)))
    ensures |more| == 1 && !(-|xs| <= i < |xs|) && block.None? ==> r == Success(Externalize(more[0]))
    ensures more == [] && !(-|xs| <= i < |xs|) && block.None? ==> r == Failure(IndexError)
  {
    match FetchAt(xs, i, more, block)
    case Success(v) => Success(Externalize(v))
    case Failure(e) => Failure(e)
  }

  /**
   * List#==: false unless other is a List or Array-like; true at once for the
   * same List; false on differing lengths; otherwise an early-exit scan over
   * pairs of externalized items.
   */
  method Equals(l: ArrayBox, other: Val, depth: nat) returns (r: bool)
    ensures r == ListEq(l, other, depth)
  {
    var o := ListTryDeconstruct(other);
    if o.None? {
      return false;
    }
    var ox := o.value;
    if other.ListView? && ox == l {
      return true;
    }
    var xs := l.items;
    var ys := ox.items;
    if |xs| != |ys| {
      return false;
    }
    if xs == [] {
      return true;
    }
    if depth == 0 {
      assert l.items[0] == xs[0];
      return false;
    }
    var d: nat := depth - 1;
    var i := 0;
    while i < |xs|
      invariant 0 <= i <= |xs|
      invariant forall j :: 0 <= j < i ==> ValEq(Externalize(xs[j]), Externalize(ys[j]), d)
    {
      if !ValEq(Externalize(xs[i]), Externalize(ys[i]), d) {
        return false;
      }
      i := i + 1;
    }
    return true;
  }

  // ---------------------------------------------------------------- assignment

  /** The items rb_ary_splice receives for a span: those of an Array-like value, internalized, else the one internalized value. */
  function SpanItems(v: Val): (r: seq<Val>)
    reads if ListTryDeconstruct(v).Some? then {ListTryDeconstruct(v).value} else {}
    ensures ListTryDeconstruct(v).Some? ==> r == InternalizeAll(ListTryDeconstruct(v).value.items)
    ensures ListTryDeconstruct(v).None? ==> r == [Internalize(v)]
  {
    match ListTryDeconstruct(v)
    case Some(a) => InternalizeAll(a.items)
    case None => [Internalize(v)]
  }

  function LastArgFrame(rest: seq<Val>): set<object> {
    if |rest| > 0 && ListTryDeconstruct(rest[|rest| - 1]).Some? then {ListTryDeconstruct(rest[|rest| - 1]).value} else {}
  }

  /**
   * The inner array after `list[index, *rest]`, where rest is the length (if
   * any) followed by the value. An integer index alone stores the internalized
   * value; a Range, or a start with a length, splices in the internalized items
   * of an Array-like value or collapses the span to the one internalized value.
   */
  function Assigned(xs: seq<Val>, index: Index, rest: seq<Val>): (r: Result<seq<Val>>)
    reads LastArgFrame(rest)
    ensures |rest| < 1 || |rest| > 2 ==> r == Failure(ArgumentError)
    ensures |rest| == 1 && index.At? ==> r == StoreAt(xs, index.i, Internalize(rest[0]))
    ensures |rest| == 2 && index.Span? ==> r == Failure(TypeError)
    ensures |rest| == 2 && IntegerArg(rest[0]).Failure? ==> r == Failure(TypeError)
  {
    if |rest| < 1 || |rest| > 2 then Failure(ArgumentError)
    else if |rest| == 2 then
      if index.Span? then Failure(TypeError)
      else
        match IntegerArg(rest[0])
        case Failure(e) => Failure(e)
        case Success(n) => Splice(xs, index.i, n, SpanItems(rest[1]))
    else
      match index
      case At(i) => StoreAt(xs, i, Internalize(rest[0]))
      case Span(rg) =>
        match StoreBounds(rg, |xs|)
        case Failure(e) => Failure(e)
        case Success((b, len)) => Splice(xs, b, len, SpanItems(rest[0]))
  }

  /** List#[]=(index, length_or_value, *maybe_value): the inner array becomes Assigned, or is untouched on error. */
  method Assign(l: ArrayBox, index: Index, rest: seq<Val>) returns (err: Option<Error>)
    modifies l
    ensures old(Assigned(l.items, index, rest)).Success? ==>
      err.None? && l.items == old(Assigned(l.items, index, rest)).value
    ensures old(Assigned(l.items, index, rest)).Failure? ==>
      err == Some(old(Assigned(l.items, index, rest)).error) && l.items == old(l.items)
  {
    match Assigned(l.items, index, rest)
    case Success(ys) =>
      l.items := ys;
      err := None;
    case Failure(e) =>
      err := Some(e);
  }

  /** `list[i] = v` stores the internalized v at i, padding with nil past the end; At then gives the externalized v. */
  lemma AssignIndexStores(xs: seq<Val>, i: nat, v: Val)
    ensures Assigned(xs, At(i), [v]).Success?
    ensures var ys := Assigned(xs, At(i), [v]).value;
      |ys| == (if i < |xs| then |xs| else i + 1) && ys[i] == Internalize(v) &&
      ItemAt(ys, i) == Externalize(v) &&
      (forall j :: 0 <= j < |xs| && j != i ==> ys[j] == xs[j]) &&
      (forall j :: |xs| <= j < i ==> ys[j] == Nil)
  {
    ConversionsRoundTrip(v);
  }

  /**
   * `list[s, n] = array_like` within bounds splices in the internalized items:
   * the length becomes |xs| - n + |items| and the items outside the span keep
   * their order.
   */
  lemma AssignSpanSplices(xs: seq<Val>, s: nat, n: nat, v: Val)
    requires s + n <= |xs|
    requires ListTryDeconstruct(v).Some?
    ensures Assigned(xs, At(s), [Atom(Int(n)), v]) ==
      Success(xs[..s] + InternalizeAll(ListTryDeconstruct(v).value.items) + xs[s + n..])
    ensures |Assigned(xs, At(s), [Atom(Int(n)), v]).value| == |xs| - n + |ListTryDeconstruct(v).value.items|
  {
    SpliceWithin(xs, s, n, SpanItems(v));
  }

  /** `list[s, n] = value` with a value that is not Array-like collapses the span to the one internalized value. */
  lemma AssignSpanCollapses(xs: seq<Val>, s: nat, n: nat, v: Val)
    requires s + n <= |xs|
    requires ListTryDeconstruct(v).None?
    ensures Assigned(xs, At(s), [Atom(Int(n)), v]) == Success(xs[..s] + [Internalize(v)] + xs[s + n..])
  {
    SpliceWithin(xs, s, n, SpanItems(v));
  }

  /** rb_ary_splice within bounds replaces exactly the span. */
  lemma SpliceWithin(xs: seq<Val>, s: nat, n: nat, rpl: seq<Val>)
    requires s + n <= |xs|
    ensures Splice(xs, s, n, rpl) == Success(xs[..s] + rpl + xs[s + n..])
  {
    if s == |xs| {
      assert xs + Nils(0) + rpl == xs[..s] + rpl + xs[s + n..];
    }
  }

  /** `list[a..b] = array_like` within bounds is `list[a, b - a + 1] = array_like`. */
  lemma AssignRangeIsStartLength(xs: seq<Val>, a: nat, b: nat, v: Val)
    requires a <= b < |xs|
    ensures Assigned(xs, Span(Range(a, b, false)), [v]) == Assigned(xs, At(a), [Atom(Int(b - a + 1)), v])
  {
  }

  // ---------------------------------------------------------------- adding items

  /** List#<<: appends the internalized value; returns the List. */
  method Append(l: ArrayBox, v: Val) returns (r: Val)
    modifies l
    ensures l.items == old(l.items) + [Internalize(v)]
    ensures r == ListView(l)
  {
    l.items := l.items + [Internalize(v)];
    r := ListView(l);
  }

  /** List#push: appends the internalized values in argument order; returns the List. */
  method Push(l: ArrayBox, vs: seq<Val>) returns (r: Val)
    modifies l
    ensures l.items == old(l.items) + InternalizeAll(vs)
    ensures r == ListView(l)
  {
    l.items := l.items + InternalizeAll(vs);
    r := ListView(l);
  }

  /** List#unshift: prepends the internalized values in argument order; returns the List. */
  method Unshift(l: ArrayBox, vs: seq<Val>) returns (r: Val)
    modifies l
    ensures l.items == InternalizeAll(vs) + old(l.items)
    ensures r == ListView(l)
  {
    l.items := InternalizeAll(vs) + l.items;
    r := ListView(l);
  }

  /** After a push the old items read as before and the pushed values read back externalized, in argument order. */
  lemma PushReadsBack(xs: seq<Val>, vs: seq<Val>)
    ensures var ys := xs + InternalizeAll(vs);
      |ys| == |xs| + |vs| &&
      (forall i :: 0 <= i < |xs| ==> ItemAt(ys, i) == ItemAt(xs, i)) &&
      (forall j :: 0 <= j < |vs| ==> ItemAt(ys, |xs| + j) == Externalize(vs[j]))
  {
    forall j | 0 <= j < |vs|
      ensures Externalize(Internalize(vs[j])) == Externalize(vs[j])
    {
      ConversionsRoundTrip(vs[j]);
    }
  }

  /** After an unshift the values read back externalized at the front and the old items follow, shifted by their count. */
  lemma UnshiftReadsBack(xs: seq<Val>, vs: seq<Val>)
    ensures var ys := InternalizeAll(vs) + xs;
      |ys| == |xs| + |vs| &&
      (forall j :: 0 <= j < |vs| ==> ItemAt(ys, j) == Externalize(vs[j])) &&
      (forall i :: 0 <= i < |xs| ==> ItemAt(ys, |vs| + i) == ItemAt(xs, i))
  {
    forall j | 0 <= j < |vs|
      ensures Externalize(Internalize(vs[j])) == Externalize(vs[j])
    {
      ConversionsRoundTrip(vs[j]);
    }
  }

  /** List#insert(index, *values): Array#insert with the internalized values; returns the List. */
  method Insert(l: ArrayBox, pos: int, vs: seq<Val>) returns (r: Result<Val>)
    modifies l
    ensures old(InsertAt(l.items, pos, InternalizeAll(vs))).Success? ==>
      r == Success(ListView(l)) && l.items == old(InsertAt(l.items, pos, InternalizeAll(vs))).value
    ensures old(InsertAt(l.items, pos, InternalizeAll(vs))).Failure? ==>
      r == Failure(IndexError) && l.items == old(l.items)
  {
    match InsertAt(l.items, pos, InternalizeAll(vs))
    case Success(ys) =>
      l.items := ys;
      r := Success(ListView(l));
    case Failure(e) =>
      r := Failure(e);
  }

  // ---------------------------------------------------------------- removing items

  /** The count argument of shift(n) / pop(n): an integer, at least zero. */
  function CountArg(v: Val): (r: Result<nat>)
    ensures r.Success? <==> v.Atom? && v.key.Int? && v.key.n >= 0
    ensures r.Success? ==> r.value == v.key.n
    ensures r.Failure? && v.Atom? && v.key.Int? ==> r.error == ArgumentError
    ensures r.Failure? && !(v.Atom? && v.key.Int?) ==> r.error == TypeError
  {
    match IntegerArg(v)
    case Failure(e) => Failure(e)
    case Success(n) => if n < 0 then Failure(ArgumentError) else Success(n)
  }

  /** The items shift(n) removes and those it leaves: the first min(n, |xs|) items, then the rest. */
  function TakeFront(xs: seq<Val>, n: nat): (r: (seq<Val>, seq<Val>))
    ensures r.0 + r.1 == xs && |r.0| == Min(n, |xs|)
  {
    var k := Min(n, |xs|);
    assert xs[..k] + xs[k..] == xs;
    (xs[..k], xs[k..])
  }

  /** The items pop(n) removes and those it leaves: the last min(n, |xs|) items, in order, and the rest. */
  function TakeBack(xs: seq<Val>, n: nat): (r: (seq<Val>, seq<Val>))
    ensures r.1 + r.0 == xs && |r.0| == Min(n, |xs|)
  {
    var k := |xs| - Min(n, |xs|);
    assert xs[..k] + xs[k..] == xs;
    (xs[k..], xs[..k])
  }

  /**
   * List#shift(*maybe_n): with no argument removes the first item and gives
   * it externalized (nil when empty); with n removes the first n items (or all
   * there are) and gives a new List over exactly those.
   */
  method Shift(l: ArrayBox, maybeN: seq<Val>) returns (r: Result<Val>)
    modifies l
    ensures |maybeN| > 1 ==> r == Failure(ArgumentError) && l.items == old(l.items)
    ensures maybeN == [] && old(l.items) == [] ==> r == Success(Nil) && l.items == []
    ensures maybeN == [] && old(l.items) != [] ==>
      r == Success(Externalize(old(l.items)[0])) && l.items == old(l.items)[1..]
    ensures |maybeN| == 1 && CountArg(maybeN[0]).Failure? ==>
      r == Failure(CountArg(maybeN[0]).error) && l.items == old(l.items)
    ensures |maybeN| == 1 && CountArg(maybeN[0]).Success? ==>
      r.Success? && r.value.ListView? && fresh(r.value.innerArray) &&
      r.value.innerArray.items == TakeFront(old(l.items), CountArg(maybeN[0]).value).0 &&
      l.items == TakeFront(old(l.items), CountArg(maybeN[0]).value).1
  {
    if |maybeN| > 1 {
      return Failure(ArgumentError);
    }
    var xs := l.items;
    if maybeN == [] {
      if xs == [] {
        return Success(Nil);
      }
      l.items := xs[1..];
      return Success(Externalize(xs[0]));
    }
    match CountArg(maybeN[0])
    case Failure(e) =>
      r := Failure(e);
    case Success(n) =>
      var (taken, rest) := TakeFront(xs, n);
      l.items := rest;
      var list := NewList(taken);
      r := Success(list);
  }

  /**
   * List#pop(*maybe_n): with no argument removes the last item and gives it
   * externalized (nil when empty); with n removes the last n items (or all
   * there are) and gives a new List over exactly those, in order.
   */
  method Pop(l: ArrayBox, maybeN: seq<Val>) returns (r: Result<Val>)
    modifies l
    ensures |maybeN| > 1 ==> r == Failure(ArgumentError) && l.items == old(l.items)
    ensures maybeN == [] && old(l.items) == [] ==> r == Success(Nil) && l.items == []
    ensures maybeN == [] && old(l.items) != [] ==>
      r == Success(Externalize(Last(old(l.items)))) && l.items == TakeBack(old(l.items), 1).1
    ensures |maybeN| == 1 && CountArg(maybeN[0]).Failure? ==>
      r == Failure(CountArg(maybeN[0]).error) && l.items == old(l.items)
    ensures |maybeN| == 1 && CountArg(maybeN[0]).Success? ==>
      r.Success? && r.value.ListView? && fresh(r.value.innerArray) &&
      r.value.innerArray.items == TakeBack(old(l.items), CountArg(maybeN[0]).value).0 &&
      l.items == TakeBack(old(l.items), CountArg(maybeN[0]).value).1
  {
    if |maybeN| > 1 {
      return Failure(ArgumentError);
    }
    var xs := l.items;
    if maybeN == [] {
      if xs == [] {
        return Success(Nil);
      }
      var (taken, rest) := TakeBack(xs, 1);
      l.items := rest;
      return Success(Externalize(taken[0]));
    }
    match CountArg(maybeN[0])
    case Failure(e) =>
      r := Failure(e);
    case Success(n) =>
      var (taken, rest) := TakeBack(xs, n);
      l.items := rest;
      var list := NewList(taken);
      r := Success(list);
  }

  function Last(xs: seq<Val>): Val
    requires xs != []
  {
    xs[|xs| - 1]
  }

  /** List#delete_at: removes the item at the index and gives it externalized; nil and no change out of range. */
  method DeleteAt(l: ArrayBox, i: int) returns (r: Val)
    modifies l
    ensures -|old(l.items)| <= i < |old(l.items)| ==>
      var j := FromEnd(|old(l.items)|, i);
      r == Externalize(old(l.items)[j]) && l.items == old(l.items)[..j] + old(l.items)[j + 1..]
    ensures !(-|old(l.items)| <= i < |old(l.items)|) ==> r == Nil && l.items == old(l.items)
  {
    var (v, rest) := NativeArray.DeleteAt(l.items, i);
    l.items := rest;
    r := Externalize(v);
  }

  /** Whether an item matches the delete target: the externalized item is `==` to it. */
  predicate Matches(v: Val, target: Val, depth: nat)
    reads *
  {
    ValEq(Externalize(v), target, depth)
  }

  /** The items List#delete keeps: those that do not match, in order. */
  function Survivors(xs: seq<Val>, target: Val, depth: nat): (r: seq<Val>)
    reads *
    ensures |r| <= |xs|
  {
    if xs == [] then []
    else
      var init := xs[..|xs| - 1];
      var last := xs[|xs| - 1];
      assert xs == init + [last];
      var kept := Survivors(init, target, depth);
      if Matches(last, target, depth) then kept else kept + [last]
  }

  /** The externalized last item that matches the delete target, if any. */
  function LastMatch(xs: seq<Val>, target: Val, depth: nat): Option<Val>
    reads *
  {
    if xs == [] then None
    else
      var init := xs[..|xs| - 1];
      var last := xs[|xs| - 1];
      if Matches(last, target, depth) then Some(Externalize(last))
      else LastMatch(init, target, depth)
  }

  /** LastMatch is None exactly when no item matches. */
  lemma {:induction false} LastMatchNone(xs: seq<Val>, target: Val, depth: nat)
    ensures LastMatch(xs, target, depth).None? <==> forall i :: 0 <= i < |xs| ==> !Matches(xs[i], target, depth)
  {
    if xs != [] {
      var init := xs[..|xs| - 1];
      var last := xs[|xs| - 1];
      assert xs == init + [last];
      LastMatchNone(init, target, depth);
      assert forall i :: 0 <= i < |init| ==> init[i] == xs[i];
      assert Matches(last, target, depth) ==> Matches(xs[|xs| - 1], target, depth);
    }
  }

  /** A LastMatch is the externalized form of a matching item after which no item matches. */
  lemma {:induction false} LastMatchIsLast(xs: seq<Val>, target: Val, depth: nat)
    requires LastMatch(xs, target, depth).Some?
    ensures exists i ::
              && 0 <= i < |xs|
              && Matches(xs[i], target, depth)
              && LastMatch(xs, target, depth).value == Externalize(xs[i])
              && (forall j :: i < j < |xs| ==> !Matches(xs[j], target, depth))
  {
    var init := xs[..|xs| - 1];
    var last := xs[|xs| - 1];
    assert xs == init + [last];
    if Matches(last, target, depth) {
      assert Matches(xs[|xs| - 1], target, depth);
    } else {
      LastMatchIsLast(init, target, depth);
      var i :| 0 <= i < |init| && Matches(init[i], target, depth) && LastMatch(init, target, depth).value == Externalize(init[i]) &&
        forall j :: i < j < |init| ==> !Matches(init[j], target, depth);
      assert xs[i] == init[i];
      forall j | i < j < |xs| ensures !Matches(xs[j], target, depth) {
        if j < |init| {
          assert xs[j] == init[j];
        }
      }
    }
  }

  /** Every survivor is an item, and none matches. */
  lemma {:induction false} SurvivorsFrom(xs: seq<Val>, target: Val, depth: nat)
    ensures forall i :: 0 <= i < |Survivors(xs, target, depth)| ==>
      Survivors(xs, target, depth)[i] in xs && !Matches(Survivors(xs, target, depth)[i], target, depth)
  {
    if xs != [] {
      var init := xs[..|xs| - 1];
      var last := xs[|xs| - 1];
      assert xs == init + [last];
      SurvivorsFrom(init, target, depth);
      var kept := Survivors(init, target, depth);
      var r := Survivors(xs, target, depth);
      assert r == if Matches(last, target, depth) then kept else kept + [last];
      forall i | 0 <= i < |r| ensures r[i] in xs && !Matches(r[i], target, depth) {
        if i < |kept| {
          assert r[i] == kept[i];
          assert kept[i] in init;
        }
      }
    }
  }

  /** Every item that does not match survives. */
  lemma {:induction false} SurvivorsKeep(xs: seq<Val>, target: Val, depth: nat)
    ensures forall i :: 0 <= i < |xs| && !Matches(xs[i], target, depth) ==> xs[i] in Survivors(xs, target, depth)
  {
    if xs != [] {
      var init := xs[..|xs| - 1];
      var last := xs[|xs| - 1];
      assert xs == init + [last];
      SurvivorsKeep(init, target, depth);
      var kept := Survivors(init, target, depth);
      var r := Survivors(xs, target, depth);
      assert r == if Matches(last, target, depth) then kept else kept + [last];
      forall i | 0 <= i < |xs| && !Matches(xs[i], target, depth) ensures xs[i] in r {
        if i < |init| {
          assert xs[i] == init[i];
          assert xs[i] in kept;
        } else {
          assert r[|r| - 1] == last;
        }
      }
    }
  }

  /** When nothing matches, every item survives in place. */
  lemma {:induction false} SurvivorsAll(xs: seq<Val>, target: Val, depth: nat)
    requires forall i :: 0 <= i < |xs| ==> !Matches(xs[i], target, depth)
    ensures Survivors(xs, target, depth) == xs
  {
    if xs != [] {
      var init := xs[..|xs| - 1];
      assert xs == init + [xs[|xs| - 1]];
      assert forall i :: 0 <= i < |init| ==> init[i] == xs[i];
      SurvivorsAll(init, target, depth);
    }
  }

  /** One more item scanned: it survives unless it matches. */
  lemma ScanStep(xs: seq<Val>, i: nat, target: Val, depth: nat)
    requires i < |xs|
    ensures Survivors(xs[..i + 1], target, depth) ==
      if Matches(xs[i], target, depth) then Survivors(xs[..i], target, depth) else Survivors(xs[..i], target, depth) + [xs[i]]
    ensures LastMatch(xs[..i + 1], target, depth) ==
      if Matches(xs[i], target, depth) then Some(Externalize(xs[i])) else LastMatch(xs[..i], target, depth)
  {
    assert xs[..i + 1][..i] == xs[..i];
  }

  /** The scan List#delete makes over a snapshot of the items: the survivors, and the last match externalized. */
  method ScanForDelete(xs: seq<Val>, target: Val, depth: nat) returns (kept: seq<Val>, last: Option<Val>)
    ensures kept == Survivors(xs, target, depth)
    ensures last == LastMatch(xs, target, depth)
  {
    kept := [];
    last := None;
    var i := 0;
    while i < |xs|
      invariant 0 <= i <= |xs|
      invariant kept == Survivors(xs[..i], target, depth)
      invariant last == LastMatch(xs[..i], target, depth)
    {
      ScanStep(xs, i, target, depth);
      var v := Externalize(xs[i]);
      if ValEq(v, target, depth) {
        last := Some(v);
      } else {
        kept := kept + [xs[i]];
      }
      i := i + 1;
    }
    assert xs[..i] == xs;
  }

  /**
   * List#delete(obj): removes every item whose externalization is `==` to the
   * externalized obj and gives the last one removed, externalized; when none
   * matched, the externalized block value for the externalized obj, or nil.
   */
  method Delete(l: ArrayBox, obj: Val, block: Option<Val -> Val>, depth: nat) returns (r: Val)
    modifies l
    ensures l.items == old(Survivors(l.items, Externalize(obj), depth))
    ensures old(LastMatch(l.items, Externalize(obj), depth)).Some? ==> r == old(LastMatch(l.items, Externalize(obj), depth)).value
    ensures old(LastMatch(l.items, Externalize(obj), depth)).None? && block.Some? ==> r == Externalize(block.value(Externalize(obj)))
    ensures old(LastMatch(l.items, Externalize(obj), depth)).None? && block.None? ==> r == Nil
  {
    var target := Externalize(obj);
    var kept, last := ScanForDelete(l.items, target, depth);
    l.items := kept;
    if last.Some? {
      r := last.value;
    } else if block.Some? {
      r := Externalize(block.value(target));
    } else {
      r := Nil;
    }
  }
}
