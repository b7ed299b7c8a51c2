/**
 * StringView of base.h: a pointer and a length, with no ownership.
 *
 * A `const char *` is modelled as CharPtr: NULL, or the characters readable
 * from that address onwards. Pointer arithmetic `p + k` drops the first k of
 * them. The view's text is the first `length` readable characters; a view
 * may carry a NULL pointer with any length (sv_from_parts does not check).
 */
module StringViews {

  datatype CharPtr = Null | Chars(mem: seq<char>)

  /** sv_from_parts is this constructor itself. */
  datatype StringView = StringView(data: CharPtr, length: nat)

  /** A view whose pointer, when not NULL, has `length` readable characters. */
  predicate WellFormed(sv: StringView)
  {
    sv.data.Chars? ==> sv.length <= |sv.data.mem|
  }

  /** The characters a non-NULL view covers. */
  function Text(sv: StringView): seq<char>
    requires WellFormed(sv) && sv.data.Chars?
  {
    sv.data.mem[..sv.length]
  }

  /** A C string: NULL, or readable memory holding a terminating NUL. */
  predicate IsCString(p: CharPtr)
  {
    p.Chars? ==> '\0' in p.mem
  }

  /** strlen: the characters before the first NUL. */
  function Strlen(m: seq<char>): (r: nat)
    requires '\0' in m
    ensures r < |m| && m[r] == '\0'
    ensures forall k :: 0 <= k < r ==> m[k] != '\0'
  {
    if m[0] == '\0' then 0 else 1 + Strlen(m[1..])
  }

  /** memcmp(a, b, n) == 0, compared character by character. */
  function MemEqual(a: seq<char>, b: seq<char>, n: nat): (r: bool)
    requires n <= |a| && n <= |b|
    ensures r <==> a[..n] == b[..n]
  {
    if n == 0 then true
    else
      PrefixSnoc(a, n);
      PrefixSnoc(b, n);
      a[n - 1] == b[n - 1] && MemEqual(a, b, n - 1)
  }

  /** The first n characters are the first n - 1 followed by the n-th. */
  lemma PrefixSnoc(a: seq<char>, n: nat)
    requires 0 < n <= |a|
    ensures a[..n] == a[..n - 1] + [a[n - 1]]
  {
  }

  /** sv_from_cstr: the view of a C string up to its NUL; NULL gives (NULL, 0). */
  function FromCstr(cstr: CharPtr): (r: StringView)
    requires IsCString(cstr)
    ensures WellFormed(r) && r.data == cstr
    ensures cstr.Null? ==> r.length == 0
    ensures cstr.Chars? ==> r.length < |cstr.mem| && cstr.mem[r.length] == '\0' && '\0' !in Text(r)
  {
    StringView(cstr, if cstr.Null? then 0 else Strlen(cstr.mem))
  }

  /**
   * sv_equals: equal lengths and either the same pointer or equal bytes. A
   * NULL view equals only another NULL view of the same length, even when
   * both lengths are 0.
   */
  function Equals(a: StringView, b: StringView): (r: bool)
    requires WellFormed(a) && WellFormed(b)
    ensures r <==> (a.length == b.length &&
      ((a.data.Null? && b.data.Null?) || (a.data.Chars? && b.data.Chars? && Text(a) == Text(b))))
  {
    if a.length != b.length then false
    else if a.data == b.data then true
    else if a.data.Null? || b.data.Null? then false
    else MemEqual(a.data.mem, b.data.mem, a.length)
  }

  /**
   * sv_equals_cstr: a NULL C string matches only the (NULL, 0) view; a non-NULL
   * one matches a non-NULL view holding exactly its characters.
   */
  function EqualsCstr(sv: StringView, cstr: CharPtr): (r: bool)
    requires WellFormed(sv) && IsCString(cstr)
    ensures cstr.Null? ==> (r <==> sv == StringView(Null, 0))
    ensures cstr.Chars? ==> (r <==> sv.data.Chars? && Text(sv) == cstr.mem[..Strlen(cstr.mem)])
  {
    if cstr.Null? then sv.length == 0 && sv.data.Null?
    else
      var n := Strlen(cstr.mem);
      if sv.length != n then false
      else if sv.data.Null? then false
      else MemEqual(sv.data.mem, cstr.mem, n)
  }

  /** Comparing with a C string is comparing with the view sv_from_cstr makes of it. */
  lemma EqualsCstrIsEquals(sv: StringView, cstr: CharPtr)
    requires WellFormed(sv) && IsCString(cstr)
    ensures EqualsCstr(sv, cstr) == Equals(sv, FromCstr(cstr))
  {
    if cstr.Chars? {
      var v := FromCstr(cstr);
      if sv.data.Chars? && Text(sv) == Text(v) {
        assert |Text(sv)| == sv.length;
      }
    }
  }

  /** sv_equals is an equivalence on well-formed views. */
  lemma EqualsIsEquivalence(a: StringView, b: StringView, c: StringView)
    requires WellFormed(a) && WellFormed(b) && WellFormed(c)
    ensures Equals(a, a)
    ensures Equals(a, b) == Equals(b, a)
    ensures Equals(a, b) && Equals(b, c) ==> Equals(a, c)
  {
  }

  /**
   * sv_slice: (NULL, 0) when start is not below the length or the pointer is
   * NULL; otherwise the view from start, its end clamped to the length, empty
   * (but not NULL) when start is at or past the clamped end.
   */
  function Slice(sv: StringView, start: nat, end: nat): (r: StringView)
    requires WellFormed(sv)
    ensures WellFormed(r)
    ensures r.data.Null? <==> start >= sv.length || sv.data.Null?
    ensures r.data.Null? ==> r.length == 0
    ensures r.data.Chars? ==>
      && r.data.mem == sv.data.mem[start..]
      && r.length == (if end <= start then 0 else (if end < sv.length then end else sv.length) - start)
      && Text(r) == Text(sv)[start..start + r.length]
  {
    if start >= sv.length || sv.data.Null? then StringView(Null, 0)
    else
      var e := if end > sv.length then sv.length else end;
      var n := if start >= e then 0 else e - start;
      SliceOfPrefix(sv.data.mem, sv.length, start, n);
      StringView(Chars(sv.data.mem[start..]), n)
  }

  /** The first n characters from start are the same whether or not the memory is first cut to len. */
  lemma SliceOfPrefix(m: seq<char>, len: nat, start: nat, n: nat)
    requires start + n <= len <= |m|
    ensures m[start..][..n] == m[..len][start..start + n]
  {
    forall k | 0 <= k < n
      ensures m[start..][..n][k] == m[..len][start..start + n][k]
    {
      assert m[start..][..n][k] == m[start + k];
    }
  }

  /** isspace in the C locale: space, \t, \n, \v, \f and \r. */
  predicate IsSpace(c: char)
  {
    c == ' ' || c == '\t' || c == '\n' || c == '\U{B}' || c == '\U{C}' || c == '\r'
  }

  /** The number of leading whitespace characters of s (the loop of sv_trim_left). */
  function LeadingSpaces(s: seq<char>): (r: nat)
    ensures r <= |s|
    ensures forall k :: 0 <= k < r ==> IsSpace(s[k])
    ensures r < |s| ==> !IsSpace(s[r])
  {
    if s == [] || !IsSpace(s[0]) then 0 else 1 + LeadingSpaces(s[1..])
  }

  /** The number of trailing whitespace characters of s (the loop of sv_trim_right). */
  function TrailingSpaces(s: seq<char>): (r: nat)
    ensures r <= |s|
    ensures forall k :: |s| - r <= k < |s| ==> IsSpace(s[k])
    ensures r < |s| ==> !IsSpace(s[|s| - r - 1])
  {
    if s == [] || !IsSpace(s[|s| - 1]) then 0 else 1 + TrailingSpaces(s[..|s| - 1])
  }

  /**
   * sv_trim_left: a NULL view is returned as it is; otherwise the slice past
   * the leading whitespace, which is (NULL, 0) when nothing else is left.
   */
  function TrimLeft(sv: StringView): (r: StringView)
    requires WellFormed(sv)
    ensures WellFormed(r)
  {
    if sv.data.Null? then sv
    else Slice(sv, LeadingSpaces(Text(sv)), sv.length)
  }

  /**
   * sv_trim_right: a NULL view is returned as it is; otherwise the slice
   * before the trailing whitespace. An all-whitespace view of length > 0
   * keeps its pointer with length 0, while an empty one becomes (NULL, 0).
   */
  function TrimRight(sv: StringView): (r: StringView)
    requires WellFormed(sv)
    ensures WellFormed(r)
  {
    if sv.data.Null? then sv
    else Slice(sv, 0, sv.length - TrailingSpaces(Text(sv)))
  }

  /** sv_trim: right, then left. */
  function Trim(sv: StringView): (r: StringView)
    requires WellFormed(sv)
    ensures WellFormed(r)
  {
    TrimLeft(TrimRight(sv))
  }

  /**
   * What sv_trim_left removes: a NULL view is unchanged; otherwise the result
   * is NULL exactly when the text is all whitespace, and else its text is the
   * original without its leading whitespace, starting with a non-space.
   */
  lemma TrimLeftMeaning(sv: StringView)
    requires WellFormed(sv)
    ensures sv.data.Null? ==> TrimLeft(sv) == sv
    ensures sv.data.Chars? ==> (TrimLeft(sv).data.Null? <==> forall k :: 0 <= k < sv.length ==> IsSpace(Text(sv)[k]))
    ensures sv.data.Chars? && TrimLeft(sv).data.Chars? ==>
      && TrimLeft(sv).length > 0
      && !IsSpace(Text(TrimLeft(sv))[0])
      && Text(sv) == Text(sv)[..sv.length - TrimLeft(sv).length] + Text(TrimLeft(sv))
      && forall k :: 0 <= k < sv.length - TrimLeft(sv).length ==> IsSpace(Text(sv)[k])
  {
    if sv.data.Chars? {
      var t := Text(sv);
      var i := LeadingSpaces(t);
      if i < sv.length {
        var r := TrimLeft(sv);
        assert r.length == sv.length - i;
        assert Text(r) == t[i..];
        assert t == t[..i] + t[i..];
      }
    }
  }

  /**
   * What sv_trim_right removes: a NULL view is unchanged; otherwise the text
   * is the result's text followed by whitespace only, and the result's text
   * does not end in whitespace.
   */
  lemma TrimRightMeaning(sv: StringView)
    requires WellFormed(sv)
    ensures sv.data.Null? ==> TrimRight(sv) == sv
    ensures sv.data.Chars? && sv.length == 0 ==> TrimRight(sv) == StringView(Null, 0)
    ensures sv.data.Chars? && sv.length > 0 ==>
      && TrimRight(sv).data.Chars?
      && Text(sv) == Text(TrimRight(sv)) + Text(sv)[TrimRight(sv).length..]
      && (forall k :: TrimRight(sv).length <= k < sv.length ==> IsSpace(Text(sv)[k]))
      && (TrimRight(sv).length > 0 ==> !IsSpace(Text(TrimRight(sv))[TrimRight(sv).length - 1]))
  {
    if sv.data.Chars? && sv.length > 0 {
      var t := Text(sv);
      var j := sv.length - TrailingSpaces(t);
      var r := TrimRight(sv);
      assert r.length == j;
      assert Text(r) == t[..j];
      assert t == t[..j] + t[j..];
    }
  }

  /** A non-NULL view with no leading whitespace is its own sv_trim_left. */
  lemma TrimLeftFixed(y: StringView)
    requires WellFormed(y) && y.data.Chars? && y.length > 0 && !IsSpace(Text(y)[0])
    ensures TrimLeft(y) == y
  {
    assert LeadingSpaces(Text(y)) == 0;
    assert y.data.mem[0..] == y.data.mem;
  }

  /** A non-NULL view with no trailing whitespace is its own sv_trim_right. */
  lemma TrimRightFixed(y: StringView)
    requires WellFormed(y) && y.data.Chars? && y.length > 0 && !IsSpace(Text(y)[y.length - 1])
    ensures TrimRight(y) == y
  {
    assert TrailingSpaces(Text(y)) == 0;
    assert y.data.mem[0..] == y.data.mem;
  }

  /** A non-NULL result of sv_trim of a non-NULL view is non-empty and has whitespace at neither end. */
  lemma TrimShape(sv: StringView)
    requires WellFormed(sv) && sv.data.Chars? && Trim(sv).data.Chars?
    ensures Trim(sv).length > 0
    ensures !IsSpace(Text(Trim(sv))[0]) && !IsSpace(Text(Trim(sv))[Trim(sv).length - 1])
  {
    var x := TrimRight(sv);
    var y := TrimLeft(x);
    assert x.data.Chars? && x.length > 0;
    assert !IsSpace(Text(x)[x.length - 1]) by {
      TrimRightMeaning(sv);
    }
    var d := x.length - y.length;
    assert y.length > 0 && !IsSpace(Text(y)[0]) && Text(y) == Text(x)[d..] by {
      TrimLeftMeaning(x);
    }
    assert Text(y)[y.length - 1] == Text(x)[x.length - 1];
  }

  /** Trimming twice is trimming once. */
  lemma TrimIdempotent(sv: StringView)
    requires WellFormed(sv)
    ensures Trim(Trim(sv)) == Trim(sv)
  {
    var y := Trim(sv);
    if sv.data.Chars? && y.data.Chars? {
      TrimShape(sv);
      TrimRightFixed(y);
      TrimLeftFixed(y);
    }
  }
}
