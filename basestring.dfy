/**
 * BaseString of base.h: a StringData vector (a vector of char) whose size is
 * the string length and whose buffer keeps a NUL right after the last
 * character, so that the buffer is always a C string of the contents.
 *
 * The bstr_* functions are free functions over that vector, as in the
 * source; they use the vector's own reserve and clear.
 */
module BaseStrings {
  import opened Vectors
  import opened StringViews

  /**
   * The invariant the bstr_* functions keep: a NUL at data[size], or no
   * buffer at all (after bstr_free, or bstr_clear of a freed string).
   */
  ghost predicate Terminated(b: Vec<char>)
    reads b, b.data
  {
    && b.Valid()
    && ((b.capacity == 0 && b.size == 0) || (b.size < b.capacity && b.data[b.size] == '\0'))
  }

  /**
   * bstr_c_str: the first size + 1 characters of the buffer are the contents
   * and then a NUL. (A contents character may itself be NUL, since
   * bstr_append_char accepts one, and a C-string reader then stops there.)
   */
  function CStr(b: Vec<char>): (r: seq<char>)
    reads b, b.data
    requires Terminated(b) && b.capacity > 0
    ensures r == b.Elements() + ['\0'] && r[|r| - 1] == '\0'
  {
    b.data[..b.size + 1]
  }

  /**
   * bstr_ensure_capacity: room for `additional` more characters and the NUL.
   * When the buffer is too small, its capacity (the vector default for 0)
   * doubles until it is enough, and reserve reallocates to that. (The
   * source's "ensure growth" guard inside the loop never fires, since
   * doubling a positive capacity always grows it.)
   */
  method EnsureCapacity(b: Vec<char>, additional: nat) returns (ok: bool)
    requires b.Valid()
    modifies b
    ensures b.Valid() && ok && b.size == old(b.size)
    ensures b.Elements() == old(b.Elements())
    ensures b.capacity >= b.size + additional + 1
    ensures b.capacity == if old(b.size) + additional + 1 <= old(b.capacity) then old(b.capacity)
                          else AppendCapacity(old(b.capacity), old(b.size) + additional + 1)
    ensures b.data == old(b.data) || (fresh(b.data) && b.data[..old(b.capacity)] == old(b.data[..]))
  {
    var required := b.size + additional + 1;
    if required > b.capacity {
      var newCapacity := b.capacity;
      if newCapacity == 0 {
        newCapacity := Vectors.DEFAULT_CAPACITY;
      }
      while newCapacity < required
        invariant newCapacity > 0
        invariant AppendCapacity(b.capacity, required) == DoubleUntil(newCapacity, required)
        decreases required - newCapacity
      {
        newCapacity := newCapacity * 2;
      }
      ok := b.Reserve(newCapacity);
    }
    ok := true;
  }

  /** bstr_init: an empty string with room for the hint (the vector default for 0) plus the NUL. */
  method Init(hint: nat) returns (b: Vec<char>)
    ensures fresh(b) && fresh(b.data) && Terminated(b)
    ensures b.Elements() == []
    ensures b.capacity == if hint > 0 then hint + 1 else Vectors.DEFAULT_CAPACITY + 1
  {
    b := new Vec.Init(if hint > 0 then hint + 1 else Vectors.DEFAULT_CAPACITY + 1);
    b.data[0] := '\0';
  }

  /** bstr_free: the buffer is released (vec_free). */
  method Free(b: Vec<char>)
    modifies b
    ensures Terminated(b) && b.Elements() == [] && b.capacity == 0
  {
    b.Free();
  }

  /** bstr_append_char: c goes at the end, followed by a fresh NUL. */
  method AppendChar(b: Vec<char>, c: char) returns (ok: bool)
    requires Terminated(b)
    modifies b, b.data
    ensures Terminated(b) && ok
    ensures b.Elements() == old(b.Elements()) + [c]
  {
    ok := EnsureCapacity(b, 1);
    b.data[b.size] := c;
    b.size := b.size + 1;
    b.data[b.size] := '\0';
  }

  /** bstr_clear: length 0, with the NUL at data[0] when there is a buffer; the capacity is kept. */
  method Clear(b: Vec<char>)
    requires Terminated(b)
    modifies b, b.data
    ensures Terminated(b) && b.Elements() == [] && b.capacity == old(b.capacity)
  {
    b.Clear();
    if b.capacity > 0 {
      b.data[0] := '\0';
    }
  }

  /** bstr_from_cstr: a new string holding the characters of cstr up to its NUL, with capacity strlen + 1. */
  method FromCstr(cstr: seq<char>) returns (b: Vec<char>)
    requires '\0' in cstr
    ensures fresh(b) && fresh(b.data) && Terminated(b)
    ensures b.Elements() == cstr[..Strlen(cstr)]
    ensures b.capacity == Strlen(cstr) + 1
  {
    var len := Strlen(cstr);
    b := new Vec.Init(len + 1);
    forall k | 0 <= k < len {
      b.data[k] := cstr[k];
    }
    b.data[len] := '\0';
    b.size := len;
  }

  /**
   * bstr_from_sv: a new string holding the view's text, with capacity
   * length + 1; a NULL view gives the empty string (with that capacity).
   */
  method FromSv(sv: StringView) returns (b: Vec<char>)
    requires WellFormed(sv)
    ensures fresh(b) && fresh(b.data) && Terminated(b)
    ensures b.Elements() == if sv.data.Chars? then Text(sv) else []
    ensures b.capacity == sv.length + 1
  {
    b := new Vec.Init(sv.length + 1);
    if sv.data.Chars? {
      forall k | 0 <= k < sv.length {
        b.data[k] := sv.data.mem[k];
      }
      b.data[sv.length] := '\0';
      b.size := sv.length;
    } else {
      b.data[0] := '\0';
      b.size := 0;
    }
  }

  /** The copy step shared by the appends: `text` goes after the contents, then the NUL. */
  method AppendText(b: Vec<char>, text: seq<char>)
    requires b.Valid() && b.size + |text| < b.capacity
    modifies b, b.data
    ensures Terminated(b) && b.data == old(b.data) && b.capacity == old(b.capacity)
    ensures b.Elements() == old(b.Elements()) + text
  {
    var start := b.size;
    forall k | 0 <= k < |text| {
      b.data[start + k] := text[k];
    }
    b.size := b.size + |text|;
    b.data[b.size] := '\0';
    assert b.Elements() == old(b.Elements()) + text;
  }

  /** bstr_append_cstr: the characters of cstr up to its NUL go at the end. */
  method AppendCstr(b: Vec<char>, cstr: seq<char>) returns (ok: bool)
    requires Terminated(b) && '\0' in cstr
    modifies b, b.data
    ensures Terminated(b) && ok
    ensures b.Elements() == old(b.Elements()) + cstr[..Strlen(cstr)]
  {
    var len := Strlen(cstr);
    if len == 0 {
      return true;
    }
    ok := EnsureCapacity(b, len);
    AppendText(b, cstr[..len]);
  }

  /** bstr_append_sv: the view's text goes at the end; an empty view changes nothing. */
  method AppendSv(b: Vec<char>, sv: StringView) returns (ok: bool)
    requires Terminated(b) && WellFormed(sv) && (sv.length > 0 ==> sv.data.Chars?)
    modifies b, b.data
    ensures Terminated(b) && ok
    ensures b.Elements() == old(b.Elements()) + (if sv.length == 0 then [] else Text(sv))
  {
    if sv.length == 0 {
      return true;
    }
    ok := EnsureCapacity(b, sv.length);
    AppendText(b, Text(sv));
  }
}
