/** NUL-terminated character buffers, as the C sources use them. */
module CString {

  /** The length of the C string in a buffer: the index of its first NUL. */
  function StrLen(a: seq<char>): (n: nat)
    requires '\0' in a
    ensures n < |a| && a[n] == '\0'
    ensures forall i :: 0 <= i < n ==> a[i] != '\0'
  {
    if a[0] == '\0' then 0 else 1 + StrLen(a[1..])
  }
}
