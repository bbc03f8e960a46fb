/** memcpy, memmove and the header setters, as block moves. */
module Copy {

  import opened Bytes
  import opened Blob

  method PutBytes(a: array<byte>, at: nat, v: seq<byte>)
    requires at + |v| <= a.Length
    modifies a
    ensures a[..] == Put(old(a[..]), at, v)
  {
    ghost var s := a[..];
    forall k | at <= k < at + |v| { a[k] := v[k - at]; }
    assert a[..] == Put(s, at, v);
  }

  method MoveBytes(a: array<byte>, to: nat, from: nat, len: nat)
    requires to + len <= a.Length && from + len <= a.Length
    modifies a
    ensures a[..] == Put(old(a[..]), to, old(a[..])[from..from + len])
  {
    PutBytes(a, to, a[from..from + len]);
  }

  /** A header setter: field k becomes v. */
  method SetWord(a: array<byte>, k: nat, v: Word)
    requires HEADER_SIZE <= a.Length && k < 10
    modifies a
    ensures a[..] == Put(old(a[..]), 4 * k, Be32(v))
  {
    PutBytes(a, 4 * k, Be32(v));
  }
}
