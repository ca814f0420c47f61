/** Success and failure values shared by every operation of the model.

    Every operation of ip_tools either returns a value or raises ValueError; the
    model returns `Ok(value)` or `Err(error)`, where the error says which check
    failed first. The human-readable messages are not modelled. */
module Outcome {

  /** The checks that can fail, named after what they reject. */
  datatype Error =
    | WrongPartCount      // the dotted text does not have exactly four parts
    | NotAnInteger        // Python's int() rejected a part
    | OctetOutOfRange     // a decimal part is outside 0..255
    | NotBinary           // a binary part holds a character other than 0 and 1
    | WrongBinaryLength   // a binary part is not exactly eight characters long
    | NotHex              // a hexadecimal part holds a non-hex character
    | HexOutOfRange       // a hexadecimal part is above 255
    | NonContiguousMask   // a netmask whose 32 bits contain "01"
    | PrefixOutOfRange    // a prefix length outside 0..32
    | InvalidNetwork      // the address library rejected "address[/mask]"
    | AddressOutOfRange   // first/last usable address fell outside the address space
    | MixedFamilies       // IPv4 and IPv6 addresses could not be sorted together
    | InvalidAddress      // the address library rejected a single address

  datatype Result<+T> = Ok(value: T) | Err(error: Error)

  datatype Option<+T> = None | Some(value: T)

  /** Applies `f` to every element, left to right, and stops at the first
      failure: either every element succeeds and all results are returned, or
      the error of the first failing element is returned and nothing else.
      This is the all-or-nothing batch behaviour of the source's loops. */
  function MapAll<T, U>(xs: seq<T>, f: T -> Result<U>): (r: Result<seq<U>>)
    ensures r.Ok? <==> forall i :: 0 <= i < |xs| ==> f(xs[i]).Ok?
    ensures r.Ok? ==> |r.value| == |xs| && forall i :: 0 <= i < |xs| ==> r.value[i] == f(xs[i]).value
    ensures r.Err? ==>
      exists i :: 0 <= i < |xs| && f(xs[i]).Err? && r.error == f(xs[i]).error &&
        forall j :: 0 <= j < i ==> f(xs[j]).Ok?
  {
    if xs == [] then Ok([])
    else
      match f(xs[0])
      case Err(e) => Err(e)
      case Ok(y) =>
        match MapAll(xs[1..], f)
        case Err(e) => Err(e)
        case Ok(ys) => Ok([y] + ys)
  }

  /** Processing one more element extends a successful batch by its result,
      or fails with that element's error. */
  lemma {:induction false} MapAllSnoc<T, U>(xs: seq<T>, y: T, f: T -> Result<U>)
    requires MapAll(xs, f).Ok?
    ensures f(y).Ok? ==> MapAll(xs + [y], f) == Ok(MapAll(xs, f).value + [f(y).value])
    ensures f(y).Err? ==> MapAll(xs + [y], f) == Err(f(y).error)
  {
    var zs := xs + [y];
    assert forall i :: 0 <= i < |xs| ==> zs[i] == xs[i];
    assert zs[|xs|] == y;
    if f(y).Ok? {
      var r := MapAll(zs, f);
      assert r.Ok?;
      assert r.value == MapAll(xs, f).value + [f(y).value];
    }
  }

  /** Once a prefix of the batch has failed, nothing that follows changes the outcome. */
  lemma {:induction false} MapAllFailedPrefix<T, U>(xs: seq<T>, ys: seq<T>, f: T -> Result<U>)
    requires MapAll(xs, f).Err?
    ensures MapAll(xs + ys, f) == MapAll(xs, f)
  {
    if f(xs[0]).Ok? {
      assert (xs + ys)[1..] == xs[1..] + ys;
      MapAllFailedPrefix(xs[1..], ys, f);
    }
  }

  /** What a loop that applies `f` to xs[0], ..., xs[n - 1] in turn has
      built once n elements are done: their results, or the error of the
      first failing one. Counting by index keeps each loop step to one
      unfolding. */
  function MapFirst<T, U>(xs: seq<T>, n: nat, f: T -> Result<U>): Result<seq<U>>
    requires n <= |xs|
  {
    if n == 0 then Ok([])
    else
      match MapFirst(xs, n - 1, f)
      case Err(e) => Err(e)
      case Ok(done) =>
        match f(xs[n - 1])
        case Err(e) => Err(e)
        case Ok(y) => Ok(done + [y])
  }

  /** Once the first n elements have failed, the rest changes nothing. */
  lemma {:induction false} MapFirstFailed<T, U>(xs: seq<T>, n: nat, m: nat, f: T -> Result<U>)
    requires n <= m <= |xs|
    requires MapFirst(xs, n, f).Err?
    ensures MapFirst(xs, m, f) == MapFirst(xs, n, f)
  {
    if n < m {
      MapFirstFailed(xs, n, m - 1, f);
    }
  }

  /** The loop over the first n elements is the batch over xs[..n]. */
  lemma {:induction false} MapFirstIsMapAll<T, U>(xs: seq<T>, n: nat, f: T -> Result<U>)
    requires n <= |xs|
    ensures MapFirst(xs, n, f) == MapAll(xs[..n], f)
  {
    if n > 0 {
      MapFirstIsMapAll(xs, n - 1, f);
      assert xs[..n] == xs[..n - 1] + [xs[n - 1]];
      if MapAll(xs[..n - 1], f).Ok? {
        MapAllSnoc(xs[..n - 1], xs[n - 1], f);
      } else {
        MapAllFailedPrefix(xs[..n - 1], [xs[n - 1]], f);
      }
    }
  }

  /** One turn of such a loop: a failing element ends the batch with its
      error, any other adds its result. */
  lemma MapFirstStep<T, U>(xs: seq<T>, n: nat, f: T -> Result<U>, done: seq<U>)
    requires n < |xs| && MapFirst(xs, n, f) == Ok(done)
    ensures f(xs[n]).Err? ==> MapAll(xs, f) == Err(f(xs[n]).error)
    ensures f(xs[n]).Ok? ==> MapFirst(xs, n + 1, f) == Ok(done + [f(xs[n]).value])
  {
    if f(xs[n]).Err? {
      MapFirstFailed(xs, n + 1, |xs|, f);
      MapFirstAll(xs, f);
    }
  }

  /** After the last element the loop holds the batch's result. */
  lemma MapFirstAll<T, U>(xs: seq<T>, f: T -> Result<U>)
    ensures MapFirst(xs, |xs|, f) == MapAll(xs, f)
  {
    MapFirstIsMapAll(xs, |xs|, f);
    assert xs[..|xs|] == xs;
  }
}
