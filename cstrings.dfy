/**
 * Bytes, Arduino Strings and the fixed-capacity C character arrays of the
 * configuration record.
 *
 * An Arduino String is a sequence of bytes; it is modelled as a sequence of
 * characters whose code is below 256. A C character array of capacity `cap`
 * holds its text followed by a NUL byte; it is modelled here by the bytes it
 * holds (`FieldBytes`) and read back with `FieldText`, which stops at the
 * first NUL the way `String(char*)` and `strlen` do.
 */
module CStrings {
  import opened Wrappers

  /** One EEPROM cell or one element of a C character array. */
  type byte = x: int | 0 <= x < 256

  /** One character of an Arduino String. */
  type Octet = c: char | c as int < 256 witness 'a'

  /** An Arduino String. */
  type Str = seq<Octet>

  const NUL: Octet := '\0'

  predicate NoNul(s: Str) {
    forall i :: 0 <= i < |s| ==> s[i] != NUL
  }

  function Min(a: int, b: int): int {
    if a <= b then a else b
  }

  /**
   * The String built from a `char*`: everything before the first NUL.
   * `String x = server.arg("s").c_str()` goes through this.
   */
  function CStr(s: Str): (r: Str)
    ensures |r| <= |s| && r == s[..|r|]
    ensures NoNul(r)
    ensures |r| == |s| || s[|r|] == NUL
  {
    if s == [] || s[0] == NUL then [] else [s[0]] + CStr(s[1..])
  }

  lemma {:induction false} CStrOfNulFree(s: Str)
    requires NoNul(s)
    ensures CStr(s) == s
  {
    if s != [] {
      CStrOfNulFree(s[1..]);
    }
  }

  function Zeros(n: nat): (r: seq<byte>)
    ensures |r| == n && forall i :: 0 <= i < n ==> r[i] == 0
  {
    seq(n, _ => 0)
  }

  function ToBytes(s: Str): (r: seq<byte>)
    ensures |r| == |s| && forall i :: 0 <= i < |s| ==> r[i] == s[i] as int
  {
    seq(|s|, i requires 0 <= i < |s| => s[i] as int)
  }

  /** The contents of a character array of capacity `cap` holding `s`, NUL-padded. */
  function FieldBytes(s: Str, cap: nat): (r: seq<byte>)
    requires |s| <= cap
    ensures |r| == cap
  {
    ToBytes(s) + Zeros(cap - |s|)
  }

  /** The text a character array holds: its bytes up to the first NUL, or all of them. */
  function FieldText(b: seq<byte>): (r: Str)
    ensures |r| <= |b| && NoNul(r)
    ensures forall i :: 0 <= i < |r| ==> r[i] as int == b[i]
    ensures |r| == |b| || b[|r|] == 0
  {
    if b == [] || b[0] == 0 then [] else [b[0] as char] + FieldText(b[1..])
  }

  /** Storing a NUL-free text that fits and reading it back yields the text. */
  lemma {:induction false} FieldRoundTrip(s: Str, cap: nat)
    requires NoNul(s) && |s| <= cap
    ensures FieldText(FieldBytes(s, cap)) == s
  {
    var b := FieldBytes(s, cap);
    if s != [] {
      assert b[0] == s[0] as int && s[0] != NUL;
      assert b[1..] == FieldBytes(s[1..], cap - 1);
      FieldRoundTrip(s[1..], cap - 1);
      assert s == [s[0]] + s[1..];
    }
  }

  // ---------------------------------------------------------------------
  // Copying a form argument into a character array
  // ---------------------------------------------------------------------

  /**
   * The text a character array of capacity `cap` should hold after a copy
   * of `src`: the longest prefix that leaves room for the terminating NUL.
   */
  function CopyField(src: Str, cap: nat): (r: Str)
    requires cap >= 1
    ensures |r| < cap && |r| <= |src| && r == src[..|r|]
    ensures |r| == |src| || |r| == cap - 1
  {
    src[..Min(|src|, cap - 1)]
  }

  /** The copy always leaves a terminated array from which exactly that prefix reads back. */
  lemma CopyFieldReadsBack(src: Str, cap: nat)
    requires cap >= 1 && NoNul(src)
    ensures FieldBytes(CopyField(src, cap), cap)[|CopyField(src, cap)|] == 0
    ensures FieldText(FieldBytes(CopyField(src, cap), cap)) == src[..Min(|src|, cap - 1)]
  {
    FieldRoundTrip(CopyField(src, cap), cap);
  }

  /** `strncpy(field, src, cap)`: at most `cap` bytes of `src`, NUL-padded, no terminator guaranteed. */
  function Strncpy(src: Str, cap: nat): (r: seq<byte>)
    ensures |r| == cap
    ensures forall i :: 0 <= i < cap ==> r[i] == (if i < |src| then src[i] as int else 0)
  {
    FieldBytes(src[..Min(|src|, cap)], cap)
  }

  /** `strlen` on a character array; None when no NUL lies inside it (a read past its end). */
  function Strlen(b: seq<byte>): (r: Option<nat>)
    ensures r.Some? ==> r.value < |b| && b[r.value] == 0 && forall i :: 0 <= i < r.value ==> b[i] != 0
    ensures r.None? ==> forall i :: 0 <= i < |b| ==> b[i] != 0
  {
    if b == [] then None
    else if b[0] == 0 then Some(0)
    else match Strlen(b[1..]) case None => None case Some(n) => Some(n + 1)
  }

  /**
   * The copy as the handlers write it: `strncpy(field, src, cap)`, then
   * `len = strlen(field)` and `field[len + 1] = '\0'`. None stands for an
   * access outside the array: `strlen` running past an unterminated array,
   * or the write at `len + 1` landing at index `cap`.
   */
  function CopyAsWritten(src: Str, cap: nat): (r: Option<seq<byte>>)
    ensures r.Some? ==> |r.value| == cap && Strlen(r.value) == Strlen(Strncpy(src, cap))
  {
    var field := Strncpy(src, cap);
    match Strlen(field)
    case None => None
    case Some(len) =>
      if len + 1 < cap then StrlenIgnoresLaterWrite(field, len + 1); Some(field[len + 1 := 0]) else None
  }

  /** A NUL written after the terminator leaves `strlen` as it was. */
  lemma StrlenIgnoresLaterWrite(b: seq<byte>, j: nat)
    requires Strlen(b).Some? && Strlen(b).value < j < |b|
    ensures Strlen(b[j := 0]) == Strlen(b)
  {
    var n := Strlen(b).value;
    assert b[j := 0][n] == 0;
  }

  /** The as-written copy goes outside the array exactly when the text is `cap - 1` bytes or longer. */
  lemma CopyAsWrittenOutOfBounds(src: Str, cap: nat)
    requires NoNul(src) && cap >= 1
    ensures CopyAsWritten(src, cap).None? <==> |src| >= cap - 1
    ensures |src| < cap - 1 ==> CopyAsWritten(src, cap) == Some(FieldBytes(CopyField(src, cap), cap))
  {
    var field := Strncpy(src, cap);
    var k := Min(|src|, cap);
    assert forall i :: 0 <= i < k ==> field[i] == src[i] as int;
    assert forall i :: 0 <= i < k ==> field[i] != 0 by {
      forall i | 0 <= i < k ensures field[i] != 0 {
        assert src[i] != NUL;
      }
    }
    if |src| < cap {
      assert field[|src|] == 0;
      assert Strlen(field) == Some(|src|);
      if |src| < cap - 1 {
        assert field[|src| + 1 := 0] == field;
        assert src[..Min(|src|, cap)] == src[..Min(|src|, cap - 1)];
      }
    } else {
      assert Strlen(field).None?;
    }
  }

  /** A 19-character SSID in the 20-byte name array: the terminator is written one past the array. */
  lemma NineteenCharNameOverruns()
    ensures CopyAsWritten("ABCDEFGHIJKLMNOPQRS", 20).None?
    ensures CopyField("ABCDEFGHIJKLMNOPQRS", 20) == "ABCDEFGHIJKLMNOPQRS"
  {
    CopyAsWrittenOutOfBounds("ABCDEFGHIJKLMNOPQRS", 20);
  }

  /** The reset handler's tag: "TK" in a 3-byte array, then a write at index 3. */
  lemma TagTerminatorOverruns()
    ensures CopyAsWritten("TK", 3).None?
    ensures CopyField("TK", 3) == "TK"
  {
    CopyAsWrittenOutOfBounds("TK", 3);
  }

  // ---------------------------------------------------------------------
  // The staging buffer `char temp[] = ""`
  // ---------------------------------------------------------------------

  /** `sizeof` of the array declared by `char temp[] = ""`: just the terminator. */
  const TempCapacity: nat := 1

  /** The bytes `s.toCharArray(buf, size)` stores: at most `size - 1` characters and a NUL. */
  function ToCharArray(s: Str, size: nat): (r: seq<byte>)
    requires size >= 1
    ensures |r| == Min(|s|, size - 1) + 1 && r[|r| - 1] == 0
  {
    ToBytes(s[..Min(|s|, size - 1)]) + [0]
  }

  /** Staging `s` with `s.toCharArray(temp, s.length() + 1)` fits `temp` only for the empty String. */
  lemma StagingOverrunsTemp(s: Str)
    ensures |ToCharArray(s, |s| + 1)| <= TempCapacity <==> s == []
  {
  }
}
