/**
 * The host language's Array operations the List wrapper delegates to, on the
 * item sequence of an Array: negative indices count from the end, storing
 * past the end pads with nil, and span reads past the end answer nil.
 */
module NativeArray {
  import opened Wrappers
  import opened Values

  /** An integer Range `first..last` or `first...last` (excludeEnd). */
  datatype Range = Range(first: int, last: int, excludeEnd: bool)

  /** The first argument of Array#[] and Array#[]=: an integer index or a Range. */
  datatype Index = At(i: int) | Span(range: Range)

  function Min(a: int, b: int): int {
    if a <= b then a else b
  }

  function Nils(n: nat): (r: seq<Val>)
    ensures |r| == n && forall i :: 0 <= i < n ==> r[i] == Nil
  {
    seq(n, _ => Nil)
  }

  /** An integer argument: Integer#to_int; anything else is refused with TypeError. */
  function IntegerArg(v: Val): (r: Result<int>)
    ensures r.Success? <==> v.Atom? && v.key.Int?
    ensures r.Success? ==> r.value == v.key.n
    ensures r.Failure? ==> r.error == TypeError
  {
    if v.Atom? && v.key.Int? then Success(v.key.n) else Failure(TypeError)
  }

  /** A possibly negative index counted from the end. */
  function FromEnd(n: nat, i: int): int {
    if i < 0 then i + n else i
  }

  /** Array#at / Array#[](index): the item at the index, or nil out of range. */
  function Entry(xs: seq<Val>, i: int): (r: Val)
    ensures 0 <= i < |xs| ==> r == xs[i]
    ensures -|xs| <= i < 0 ==> r == xs[|xs| + i]
    ensures i >= |xs| || i < -|xs| ==> r == Nil
  {
    var j := FromEnd(|xs|, i);
    if 0 <= j < |xs| then xs[j] else Nil
  }

  /** rb_ary_subseq: nil for a start past the end or a negative start or length; else the (clipped) subarray. */
  function Subseq(xs: seq<Val>, beg: int, len: int): (r: Option<seq<Val>>)
    ensures r.None? <==> beg > |xs| || beg < 0 || len < 0
    ensures r.Some? ==> r.value == xs[beg..Min(|xs|, beg + len)]
  {
    if beg > |xs| || beg < 0 || len < 0 then None
    else Some(xs[beg..Min(|xs|, beg + len)])
  }

  /** Array#[](start, length). */
  function SliceStartLength(xs: seq<Val>, start: int, len: int): (r: Option<seq<Val>>)
    ensures r.None? <==> FromEnd(|xs|, start) > |xs| || FromEnd(|xs|, start) < 0 || len < 0
    ensures r.Some? ==> |r.value| <= len && r.value == xs[FromEnd(|xs|, start)..Min(|xs|, FromEnd(|xs|, start) + len)]
  {
    Subseq(xs, FromEnd(|xs|, start), len)
  }

  /**
   * The start and length a Range selects for reading (rb_range_beg_len without
   * raising): None when the start lies before the beginning or past the end;
   * otherwise the span is clipped to the array.
   */
  function ReadBounds(r: Range, n: nat): (res: Option<(nat, nat)>)
    ensures res.Some? ==> res.value.0 + res.value.1 <= n
    ensures res.None? <==> FromEnd(n, r.first) < 0 || FromEnd(n, r.first) > n
  {
    var beg := FromEnd(n, r.first);
    var end := FromEnd(n, r.last) + (if r.excludeEnd then 0 else 1);
    if beg < 0 || beg > n then None
    else
      var clipped := Min(end, n);
      Some((beg, if clipped < beg then 0 else clipped - beg))
  }

  /** Array#[](range). */
  function SliceRange(xs: seq<Val>, r: Range): (res: Option<seq<Val>>)
    ensures res.Some? <==> ReadBounds(r, |xs|).Some?
    ensures res.Some? ==> var (b, l) := ReadBounds(r, |xs|).value; res.value == xs[b..b + l]
  {
    match ReadBounds(r, |xs|)
    case None => None
    case Some((b, l)) => Subseq(xs, b, l)
  }

  /**
   * The start and length a Range selects for storing (rb_range_beg_len raising
   * RangeError): the span is not clipped; a start before the beginning is refused.
   */
  function StoreBounds(r: Range, n: nat): (res: Result<(nat, nat)>)
    ensures res.Failure? <==> FromEnd(n, r.first) < 0
    ensures res.Failure? ==> res.error == RangeError
    ensures res.Success? ==> res.value.0 == FromEnd(n, r.first)
  {
    var beg := FromEnd(n, r.first);
    var end := FromEnd(n, r.last) + (if r.excludeEnd then 0 else 1);
    if beg < 0 then Failure(RangeError)
    else Success((beg, if end < beg then 0 else end - beg))
  }

  /**
   * rb_ary_splice: replace len items from beg with rpl. A negative length or a
   * start before the beginning raises IndexError; a start at or past the end
   * pads with nil up to it; a span running past the end is clipped.
   */
  function Splice(xs: seq<Val>, beg: int, len: int, rpl: seq<Val>): (r: Result<seq<Val>>)
    ensures r.Failure? <==> len < 0 || FromEnd(|xs|, beg) < 0
    ensures r.Failure? ==> r.error == IndexError
    ensures r.Success? && FromEnd(|xs|, beg) >= |xs| ==>
      r.value == xs + Nils(FromEnd(|xs|, beg) - |xs|) + rpl
    ensures r.Success? && FromEnd(|xs|, beg) < |xs| ==>
      var b := FromEnd(|xs|, beg);
      r.value == xs[..b] + rpl + xs[Min(|xs|, b + len)..]
  {
    if len < 0 then Failure(IndexError)
    else
      var b := FromEnd(|xs|, beg);
      if b < 0 then Failure(IndexError)
      else if b >= |xs| then Success(xs + Nils(b - |xs|) + rpl)
      else Success(xs[..b] + rpl + xs[Min(|xs|, b + len)..])
  }

  /**
   * rb_ary_store (Array#[]= with an integer index): replace in range, pad
   * with nil past the end; an index before the beginning raises IndexError.
   */
  function StoreAt(xs: seq<Val>, i: int, v: Val): (r: Result<seq<Val>>)
    ensures r.Failure? <==> FromEnd(|xs|, i) < 0
    ensures r.Failure? ==> r.error == IndexError
    ensures r.Success? ==> |r.value| == if FromEnd(|xs|, i) < |xs| then |xs| else FromEnd(|xs|, i) + 1
    ensures r.Success? ==> r.value[FromEnd(|xs|, i)] == v
    ensures r.Success? ==> forall j :: 0 <= j < |xs| && j != FromEnd(|xs|, i) ==> r.value[j] == xs[j]
    ensures r.Success? ==> forall j :: |xs| <= j < FromEnd(|xs|, i) ==> r.value[j] == Nil
  {
    var j := FromEnd(|xs|, i);
    if j < 0 then Failure(IndexError)
    else if j < |xs| then Success(xs[j := v])
    else Success(xs + Nils(j - |xs|) + [v])
  }

  /**
   * Array#insert(pos, *vals): no values is a no-op; -1 appends; another
   * negative position counts from the end and inserts after that item; a
   * position past the end pads with nil.
   */
  function InsertAt(xs: seq<Val>, pos: int, vals: seq<Val>): (r: Result<seq<Val>>)
    ensures vals == [] ==> r == Success(xs)
    ensures vals != [] && pos < -|xs| - 1 ==> r == Failure(IndexError)
    ensures vals != [] && 0 <= pos <= |xs| ==> r == Success(xs[..pos] + vals + xs[pos..])
    ensures vals != [] && -|xs| - 1 <= pos < 0 ==> r == Success(xs[..|xs| + pos + 1] + vals + xs[|xs| + pos + 1..])
    ensures vals != [] && pos > |xs| ==> r == Success(xs + Nils(pos - |xs|) + vals)
  {
    assert xs + Nils(0) + vals == xs[..|xs|] + vals + xs[|xs|..];
    if vals == [] then Success(xs)
    else if pos == -1 then Splice(xs, |xs|, 0, vals)
    else if pos < 0 then
      if pos < -|xs| - 1 then Failure(IndexError) else Splice(xs, pos + 1, 0, vals)
    else Splice(xs, pos, 0, vals)
  }

  /**
   * Array#fetch(index, *default) with an optional block: the item in range;
   * otherwise the block's value for the index as given, else the default, else
   * IndexError. More than one default is an ArgumentError.
   */
  function FetchAt(xs: seq<Val>, i: int, more: seq<Val>, block: Option<int -> Val>): (r: Result<Val>)
    ensures |more| > 1 ==> r == Failure(ArgumentError)
    ensures |more| <= 1 && -|xs| <= i < |xs| ==> r == Success(Entry(xs, i))
    ensures |more| <= 1 && !(-|xs| <= i < |xs|) && block.Some? ==> r == Success(block.value(i))
    ensures |more| == 1 && !(-|xs| <= i < |xs|) && block.None? ==> r == Success(more[0])
    ensures more == [] && !(-|xs| <= i < |xs|) && block.None? ==> r == Failure(IndexError)
  {
    if |more| > 1 then Failure(ArgumentError)
    else
      var j := FromEnd(|xs|, i);
      if 0 <= j < |xs| then Success(xs[j])
      else if block.Some? then Success(block.value(i))
      else if |more| == 1 then Success(more[0])
      else Failure(IndexError)
  }

  /** Array#delete_at: removes and gives the item at the index; nil and no change out of range. */
  function DeleteAt(xs: seq<Val>, i: int): (r: (Val, seq<Val>))
    ensures -|xs| <= i < |xs| ==> var j := FromEnd(|xs|, i); r == (xs[j], xs[..j] + xs[j + 1..])
    ensures !(-|xs| <= i < |xs|) ==> r == (Nil, xs)
  {
    var j := FromEnd(|xs|, i);
    if 0 <= j < |xs| then (xs[j], xs[..j] + xs[j + 1..]) else (Nil, xs)
  }
}
