/** Values shared by every part of the catalog model: nullable references,
    the exceptions the services raise, calendar dates and the three notions
    of "whitespace" that the Java library and the validators use. */
module Common {

  /** A Java reference that may be null. */
  datatype Option<+T> = None | Some(value: T)

  /** The exception kinds the modelled code throws. */
  datatype Error =
    | NotFound          // NotFoundException
    | FilmNotFound      // FilmNotFoundException (in-memory film storage)
    | Validation        // ValidationException (jakarta or the project's own)
    | IllegalArgument   // IllegalArgumentException
    | NullReference     // NullPointerException raised by dereferencing a null field

  /** The outcome of an operation that either returns a value or throws. */
  datatype Result<+T> = Ok(value: T) | Err(error: Error)

  /** A calendar date (`LocalDate`), compared field by field. */
  datatype Date = Date(year: int, month: int, day: int)

  /** `a.isBefore(b)`: strictly earlier in (year, month, day) order. */
  predicate IsBefore(a: Date, b: Date)
  {
    || a.year < b.year
    || (a.year == b.year && a.month < b.month)
    || (a.year == b.year && a.month == b.month && a.day < b.day)
  }

  /** The first public film screening; no release date may precede it. */
  const MinReleaseDate: Date := Date(1895, 12, 28)

  /** `String.length()`: the number of UTF-16 code units, two for a
      character outside the Basic Multilingual Plane. */
  function Utf16Length(s: string): (n: nat)
    ensures |s| <= n <= 2 * |s|
  {
    if s == [] then 0 else (if s[0] as int >= 0x1_0000 then 2 else 1) + Utf16Length(s[1..])
  }

  /** A string of characters inside the Basic Multilingual Plane has one code
      unit per character; one of characters outside it has two. */
  lemma {:induction false} Utf16LengthPlanes(s: string)
    ensures (forall i :: 0 <= i < |s| ==> s[i] as int < 0x1_0000) ==> Utf16Length(s) == |s|
    ensures (forall i :: 0 <= i < |s| ==> s[i] as int >= 0x1_0000) ==> Utf16Length(s) == 2 * |s|
  {
    if s != [] {
      Utf16LengthPlanes(s[1..]);
      assert forall i :: 1 <= i < |s| ==> s[1..][i - 1] == s[i];
    }
  }

  /** Characters `String.trim()` strips, which Hibernate's `@NotBlank` ignores. */
  predicate IsTrimmable(c: char)
  {
    c <= ' '
  }

  /** `Character.isWhitespace`, which `String.isBlank()` relies on. */
  predicate IsJavaWhitespace(c: char)
  {
    || ('\t' <= c <= '\r')
    || ('\U{001C}' <= c <= '\U{001F}')
    || c == ' '
    || c == '\U{1680}'
    || ('\U{2000}' <= c <= '\U{2006}')
    || ('\U{2008}' <= c <= '\U{200A}')
    || c == '\U{2028}' || c == '\U{2029}'
    || c == '\U{205F}' || c == '\U{3000}'
  }

  /** `\s` of `java.util.regex` without the Unicode flag: `[ \t\n\x0B\f\r]`. */
  predicate IsRegexSpace(c: char)
  {
    c == ' ' || ('\t' <= c <= '\r')
  }

  /** Hibernate `@NotBlank`: non-null and non-empty after `trim()`. */
  predicate NotBlank(s: Option<string>)
  {
    s.Some? && exists i :: 0 <= i < |s.value| && !IsTrimmable(s.value[i])
  }

  /** `String.isBlank()`: every character is Java whitespace (true of ""). */
  predicate IsBlank(s: string)
  {
    forall i :: 0 <= i < |s| ==> IsJavaWhitespace(s[i])
  }
}
