/** The growable byte buffer. */
module HttpBuffer {
  import opened Numerals

  /** `c` doubled `k` times. */
  function Doubled(c: nat, k: nat): nat {
    if k == 0 then c else 2 * Doubled(c, k - 1)
  }

  /** `n` is the first doubling of `c` that holds `required`, or `required` itself when the doubling
      before it would leave 32 bits. */
  ghost predicate Grown(c: nat, required: nat, n: nat) {
    exists k: nat ::
      if n == Doubled(c, k) then required <= n && (k == 0 || Doubled(c, k - 1) < required)
      else n == required && Doubled(c, k) < required && 2 * Doubled(c, k) > UINT32_MAX
  }

  class ByteBuffer {
    var data: array<char>
    var length: nat

    /** The capacity always leaves room for a terminating NUL once something has been stored. */
    ghost predicate Valid()
      reads this, data
    {
      && (data.Length == 0 ==> length == 0)
      && (data.Length > 0 ==> length < data.Length && data[length] == '\0')
      && data.Length <= UINT32_MAX
    }

    function Contents(): (s: string)
      reads this, data
      requires length <= data.Length
    {
      data[..length]
    }

    constructor ()
      ensures Valid() && Contents() == "" && fresh(data)
    {
      data := new char[0];
      length := 0;
    }

    /** Room for `extra` more bytes and the terminator: doubling from 256, except when doubling would
        leave the 32-bit range. Refused exactly when the total would not fit 32 bits. */
    method Reserve(extra: nat) returns (ok: bool)
      requires Valid()
      modifies this`data
      ensures ok == (length + extra + 1 <= UINT32_MAX)
      ensures Valid() && Contents() == old(Contents())
      ensures !ok || length + extra < old(data.Length) ==> data == old(data)
      ensures ok && length + extra >= old(data.Length) ==>
        && fresh(data)
        && Grown(if old(data.Length) == 0 then 256 else old(data.Length), length + extra + 1, data.Length)
    {
      if extra > UINT32_MAX - length - 1 { return false; }
      var required := length + extra + 1;
      ok := true;
      if required <= data.Length { return; }
      var capacity := if data.Length == 0 then 256 else data.Length;
      ghost var first, k := capacity, 0;
      while capacity < required
        invariant data.Length <= capacity <= UINT32_MAX
        invariant capacity > 0 && capacity == Doubled(first, k) && (k == 0 || Doubled(first, k - 1) < required)
        decreases required - capacity
      {
        if capacity > UINT32_MAX / 2 {
          capacity := required;
          break;
        }
        capacity, k := capacity * 2, k + 1;
      }
      assert Grown(first, required, capacity);
      var larger := new char[capacity](_ => '\0');
      forall i | 0 <= i < data.Length {
        larger[i] := data[i];
      }
      assert larger[..length] == data[..length];
      data := larger;
    }

    method Append(s: string) returns (ok: bool)
      requires Valid()
      modifies this, data
      ensures ok == (old(length) + |s| + 1 <= UINT32_MAX)
      ensures Valid() && Contents() == if ok then old(Contents()) + s else old(Contents())
      ensures data == old(data) || fresh(data)
    {
      ok := Reserve(|s|);
      if !ok { return; }
      ghost var was := Contents();
      forall i | 0 <= i < |s| {
        data[length + i] := s[i];
      }
      length := length + |s|;
      data[length] := '\0';
      assert data[..length] == was + s;
    }

    method Reset()
      requires Valid()
      modifies this, data
      ensures Valid() && Contents() == "" && data == old(data)
    {
      length := 0;
      if data.Length != 0 {
        data[0] := '\0';
      }
    }

    /** Drop the last byte. */
    method DropLast()
      requires Valid() && length > 0
      modifies this, data
      ensures Valid() && Contents() == old(Contents())[..old(length) - 1] && data == old(data)
    {
      length := length - 1;
      data[length] := '\0';
    }
  }
}
