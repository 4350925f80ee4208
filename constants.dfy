/**
 * Bytes and the CRLF terminator of src/protocol/constants.rs, and
 * `CRLFValidator::find`, the first-CRLF search every decoder relies on.
 */
module Constants {
  import opened Wrappers

  /** A Rust `u8`. */
  type byte = x: int | 0 <= x < 256

  /** A Rust `&[u8]`, `Vec<u8>` or (UTF-8 validation aside) `String`. */
  type Bytes = seq<byte>

  const CR: byte := 13
  const LF: byte := 10
  const CRLF: Bytes := [CR, LF]

  /** Every character of `s` fits in a byte. */
  predicate IsByteText(s: string)
  {
    forall i :: 0 <= i < |s| ==> s[i] as int < 256
  }

  /** The bytes of a string literal whose characters are all below 256. */
  function FromString(s: string): (r: Bytes)
    requires IsByteText(s)
    ensures |r| == |s| && forall i :: 0 <= i < |s| ==> r[i] == s[i] as int
  {
    seq(|s|, i requires 0 <= i < |s| => s[i] as int)
  }

  /** Converting a concatenation converts each part. */
  lemma FromStringAppend(a: string, b: string)
    requires IsByteText(a) && IsByteText(b)
    ensures IsByteText(a + b)
    ensures FromString(a + b) == FromString(a) + FromString(b)
  {
    forall i | 0 <= i < |a + b| ensures (a + b)[i] as int < 256 {
      if i >= |a| { assert (a + b)[i] == b[i - |a|]; }
    }
  }

  /** The two-byte window starting at `i` is exactly CR LF. */
  predicate CrlfAt(arr: Bytes, i: int)
  {
    0 <= i && i + 1 < |arr| && arr[i] == CR && arr[i + 1] == LF
  }

  predicate HasCrlf(arr: Bytes)
  {
    exists i :: 0 <= i < |arr| && CrlfAt(arr, i)
  }

  /** `i` is the position of the first CR LF window of `arr`. */
  predicate FirstCrlfAt(arr: Bytes, i: int)
  {
    CrlfAt(arr, i) && forall j :: 0 <= j < i ==> !CrlfAt(arr, j)
  }

  /** `arr.windows(2).position(|a| a == CRLF)` started at window `i`. */
  function FindFrom(arr: Bytes, i: nat): (r: Option<nat>)
    requires i <= |arr|
    ensures r.Some? ==> i <= r.value && CrlfAt(arr, r.value)
    decreases |arr| - i
  {
    if i + 1 >= |arr| then None
    else if arr[i] == CR && arr[i + 1] == LF then Some(i)
    else FindFrom(arr, i + 1)
  }

  /**
   * `CRLFValidator::find`: the index of the first CR LF pair, or None when
   * there is none; a lone CR or LF never matches. `FindSpec` states the
   * search's full contract.
   */
  function Find(arr: Bytes): (r: Option<nat>)
    ensures |arr| < 2 ==> r.None?
    ensures r.Some? ==> CrlfAt(arr, r.value)
  {
    if |arr| < 2 then None else FindFrom(arr, 0)
  }

  /** The windows `FindFrom` skips hold no CR LF, and a failed search saw none. */
  lemma {:induction false} FindFromSkips(arr: Bytes, i: nat)
    requires i <= |arr|
    ensures FindFrom(arr, i).Some? ==> forall j :: i <= j < FindFrom(arr, i).value ==> !CrlfAt(arr, j)
    ensures FindFrom(arr, i).None? ==> forall j :: i <= j ==> !CrlfAt(arr, j)
    decreases |arr| - i
  {
    if i + 1 < |arr| && !(arr[i] == CR && arr[i + 1] == LF) {
      FindFromSkips(arr, i + 1);
    }
  }

  /** `Find` succeeds exactly when some CR LF exists, and then reports the first one. */
  lemma FindSpec(arr: Bytes)
    ensures Find(arr).Some? <==> HasCrlf(arr)
    ensures Find(arr).Some? ==> FirstCrlfAt(arr, Find(arr).value)
  {
    FindFromSkips(arr, 0);
    if Find(arr).Some? {
      assert CrlfAt(arr, Find(arr).value);
    }
  }

  /** Whatever position is the first CR LF is the one `Find` reports. */
  lemma FindIsFirst(arr: Bytes, h: nat)
    requires FirstCrlfAt(arr, h)
    ensures Find(arr) == Some(h)
  {
    FindSpec(arr);
    assert CrlfAt(arr, h);
  }

  /** No CR LF pair anywhere means `Find` fails. */
  lemma FindNone(arr: Bytes)
    requires forall i :: 0 <= i < |arr| - 1 ==> !(arr[i] == CR && arr[i + 1] == LF)
    ensures Find(arr) == None
  {
    FindSpec(arr);
  }

  /** The test at constants.rs: `find(&[CR, LF])` succeeds, at 0. */
  lemma FindCrlfOnly()
    ensures Find(CRLF) == Some(0)
  {
  }

  /** A lone CR or LF, or LF before CR, is not a terminator. */
  lemma FindLoneBytes()
    ensures Find([CR]) == None && Find([LF]) == None
    ensures Find([LF, CR]) == None && Find([CR, CR, LF]) == Some(1)
  {
    assert FindFrom([CR, CR, LF], 1) == Some(1);
  }
}
