/** The validators of message.c: cursors moving over received bytes, of which size are left. */
module Validators {
  import opened Bytes
  import opened Osc
  import opened Codec
  import BundleFormat

  lemma SameLength(s: seq<byte>, data: seq<byte>)
    requires 4 <= |s| <= |data| && s == data[..|s|]
    ensures ReadNetwork32(s) == ReadNetwork32(data)
  {
    assert s[..4] == data[..4];
  }

  lemma NotZeros(s: seq<byte>, lo: nat, hi: nat, i: nat)
    requires lo <= i < hi <= |s| && s[i] != 0
    ensures s[lo..hi] != Zeros(hi - lo)
  {
    assert s[lo..hi][i - lo] != 0 && Zeros(hi - lo)[i - lo] == 0;
  }

  method ValidateString(data: seq<byte>, size: int) returns (r: int)
    requires size <= |data|
    ensures r == if size < 0 then -ESIZE else StringSpan(data[..size])
  {
    if size < 0 {
      return -ESIZE;
    }
    ghost var s := data[..size];
    var i, len := 0, 0;
    while i < size
      invariant 0 <= i <= size && len == 0
      invariant NulFree(s[..i])
    {
      if data[i] == 0 {
        len := 4 * (i / 4 + 1);
        break;
      }
      i := i + 1;
    }
    StrlenUnique(s, i);
    if len == 0 {
      return -ETERM;
    }
    if len > size {
      return -ESIZE;
    }
    ghost var n := i;
    while i < len
      invariant n <= i <= len
      invariant forall j | n <= j < i :: s[j] == 0
    {
      if data[i] != 0 {
        NotZeros(s, n, len, i);
        return -EPAD;
      }
      i := i + 1;
    }
    assert s[n..len] == Zeros(len - n);
    return len;
  }

  // The length word is read once four bytes are known to be there; any shorter rest is too small anyway.
  method ValidateBlob(data: seq<byte>, size: int) returns (r: int)
    requires size <= |data|
    ensures r == if size < 0 then -ESIZE else BlobSpan(data[..size])
  {
    hide ReadNetwork32;
    if size < 4 {
      return -ESIZE;
    }
    ghost var s := data[..size];
    var dsize := ReadNetwork32(data);
    SameLength(s, data);
    if dsize > MAX_MSG_SIZE {
      return -ESIZE;
    }
    var end := 4 + dsize;
    var len := 4 * (end / 4 + 1);
    if len > size {
      return -ESIZE;
    }
    var i := end;
    while i < len
      invariant end <= i <= len
      invariant forall j | end <= j < i :: s[j] == 0
    {
      if data[i] != 0 {
        NotZeros(s, end, len, i);
        return -EPAD;
      }
      i := i + 1;
    }
    assert s[end..len] == Zeros(len - end);
    return len;
  }

  method ValidateArg(t: byte, data: seq<byte>, size: int) returns (r: int)
    requires size <= |data|
    ensures r == if size < 0 then -1 else ArgSpan(t, data[..size])
  {
    if size < 0 {
      return -1;
    }
    if IsUnit(t) {
      r := 0;
    } else if IsWord(t) {
      r := if size >= 4 then 4 else -ESIZE;
    } else if IsWide(t) {
      r := if size >= 8 then 8 else -ESIZE;
    } else if IsText(t) {
      r := ValidateString(data, size);
    } else if t == BLOB {
      r := ValidateBlob(data, size);
    } else {
      r := -EINVALIDTYPE;
    }
  }

  // The loop of lo_validate_bundle, from the first element on.
  method ValidateElements(data: seq<byte>) returns (ok: bool)
    ensures ok == BundleFormat.Tiled(data)
  {
    var pos, remain := 0, |data|;
    while remain >= 4
      invariant 0 <= pos && 0 <= remain && pos + remain == |data|
      invariant BundleFormat.Tiled(data) == BundleFormat.Tiled(data[pos..])
    {
      ghost var rest := data[pos..];
      var elemLen := ReadNetwork32(data[pos..]);
      pos := pos + 4;
      remain := remain - 4;
      if elemLen > remain {
        return false;
      }
      pos := pos + elemLen;
      remain := remain - elemLen;
      assert rest[4 + elemLen..] == data[pos..];
    }
    return remain == 0;
  }

  method ValidateBundle(data: seq<byte>, size: nat) returns (r: int)
    requires size <= |data|
    ensures r == BundleFormat.BundleSpan(data[..size])
  {
    var s := data[..size];
    var len := ValidateString(data, size);
    if len < 0 {
      return -ESIZE;
    }
    StringSpanPadded(s);
    if s[..Strlen(s)] != BundleFormat.MARKER {
      return -EINVALIDBUND;
    }
    var remain := size - len;
    if remain < 8 {
      return -ESIZE;
    }
    var ok := ValidateElements(data[len + 8..size]);
    assert data[len + 8..size] == s[len + 8..];
    return if ok then size else -ESIZE;
  }
}
