/** Bytes, options, fault codes, results and small functions shared by every part of the model. */
module Bytes {
  type byte = b: int | 0 <= b < 256

  datatype Option<+T> = None | Some(value: T)

  function Pow2(x: nat): (r: nat)
    ensures r > 0
  {
    if x == 0 then 1 else 2 * Pow2(x - 1)
  }

  function Zeros(n: nat): (z: seq<byte>)
    ensures |z| == n && forall k | 0 <= k < n :: z[k] == 0
  {
    seq(n, _ => 0)
  }

  /** The first place where `p` holds, or the length if there is none. */
  function FirstIndex<T>(s: seq<T>, p: T -> bool): (i: nat)
    ensures i <= |s|
    ensures i < |s| ==> p(s[i])
    ensures forall k | 0 <= k < i :: !p(s[k])
  {
    if s == [] || p(s[0]) then 0 else 1 + FirstIndex(s[1..], p)
  }

  const CR: byte := 13
  const LF: byte := 10
  const CRLF: seq<byte> := [CR, LF]

  /** The fault codes of `xmlrpc_env` that the modelled code can set. */
  const INTERNAL_ERROR := -500
  const TYPE_ERROR := -501
  const INDEX_ERROR := -502
  const PARSE_ERROR := -503
  const NO_SUCH_METHOD_ERROR := -506
  const REQUEST_REFUSED_ERROR := -507
  const INVALID_UTF8_ERROR := -510

  /** What a C function that takes an `xmlrpc_env` delivers: a value, or a fault with its code. */
  datatype Result<+T> = Ok(value: T) | Fault(code: int)
}
