/**
 * Parsing of the `Authorization` header shared by the authentication handler and the
 * logout/refresh endpoints: an ordinal ignore-case prefix test for the scheme, then
 * Substring past the prefix and Trim.
 */
module AuthorizationHeader {
  import opened Wrappers

  /** The scheme prefix of an access-token header and of a refresh-token header. */
  const BearerPrefix: string := "Bearer "
  const RefreshPrefix: string := "Refresh "

  /** The characters .NET's Char.IsWhiteSpace accepts, which String.Trim removes. */
  predicate IsWhiteSpace(c: char) {
    var n := c as int;
    (0x09 <= n <= 0x0D) || n == 0x20 || n == 0x85 || n == 0xA0 || n == 0x1680
    || (0x2000 <= n <= 0x200A) || n == 0x2028 || n == 0x2029 || n == 0x202F
    || n == 0x205F || n == 0x3000
  }

  /** Removes the longest all-whitespace prefix. */
  function TrimStart(s: string): (r: string)
    ensures |r| <= |s| && r == s[|s| - |r|..]
    ensures forall i :: 0 <= i < |s| - |r| ==> IsWhiteSpace(s[i])
    ensures r != [] ==> !IsWhiteSpace(r[0])
  {
    if |s| > 0 && IsWhiteSpace(s[0]) then TrimStart(s[1..]) else s
  }

  /** Removes the longest all-whitespace suffix. */
  function TrimEnd(s: string): (r: string)
    ensures |r| <= |s| && r == s[..|r|]
    ensures forall i :: |r| <= i < |s| ==> IsWhiteSpace(s[i])
    ensures r != [] ==> !IsWhiteSpace(r[|r| - 1])
  {
    if |s| > 0 && IsWhiteSpace(s[|s| - 1]) then TrimEnd(s[..|s| - 1]) else s
  }

  /** String.Trim(): the contiguous middle of `s` without leading or trailing whitespace. */
  function Trim(s: string): (r: string)
    ensures |r| <= |s|
  {
    TrimEnd(TrimStart(s))
  }

  /** No whitespace at either end: what Trim leaves, and what Trim leaves alone. */
  predicate IsTrimmed(s: string) {
    s == [] || (!IsWhiteSpace(s[0]) && !IsWhiteSpace(s[|s| - 1]))
  }

  /** Trim removes exactly the surrounding whitespace: its result is a trimmed slice of `s`. */
  lemma TrimSpec(s: string)
    ensures IsTrimmed(Trim(s))
    ensures exists a, b ::
              && 0 <= a <= b <= |s| && Trim(s) == s[a..b]
              && (forall i :: 0 <= i < a ==> IsWhiteSpace(s[i]))
              && (forall i :: b <= i < |s| ==> IsWhiteSpace(s[i]))
  {
    var t := TrimStart(s);
    var r := TrimEnd(t);
    var a := |s| - |t|;
    assert r == s[a..a + |r|];
    if r != [] {
      assert r[0] == t[0];
    }
  }

  /** Trim yields the empty string exactly when the input is all whitespace. */
  lemma TrimEmptyIff(s: string)
    ensures Trim(s) == [] <==> forall i :: 0 <= i < |s| ==> IsWhiteSpace(s[i])
  {
    var t := TrimStart(s);
    if Trim(s) == [] {
      forall i | 0 <= i < |s| ensures IsWhiteSpace(s[i]) {
        if i >= |s| - |t| {
          assert s[i] == t[i - (|s| - |t|)];
        }
      }
    } else {
      assert t != [];
      assert !IsWhiteSpace(t[0]);
      assert s[|s| - |t|] == t[0];
    }
  }

  /** A trimmed string is a fixed point of Trim. */
  lemma TrimOfTrimmed(s: string)
    requires IsTrimmed(s)
    ensures Trim(s) == s
  {
  }

  /** Trim is idempotent. */
  lemma TrimIdempotent(s: string)
    ensures Trim(Trim(s)) == Trim(s)
  {
    TrimSpec(s);
    TrimOfTrimmed(Trim(s));
  }

  /** The upper-case mapping of ordinal ignore-case comparison, on ASCII letters. */
  function ToUpperAscii(c: char): char
  {
    if 'a' <= c <= 'z' then (c as int - 32) as char else c
  }

  /** StartsWith(prefix, StringComparison.OrdinalIgnoreCase). */
  predicate StartsWithIgnoreCase(s: string, prefix: string) {
    |prefix| <= |s| && forall i :: 0 <= i < |prefix| ==> ToUpperAscii(s[i]) == ToUpperAscii(prefix[i])
  }

  /**
   * How a prefix character folds: `lower` and `upper` are the two spellings ordinal
   * ignore-case comparison accepts for `c` (the same character when it is not a letter).
   */
  predicate FoldsTo(c: char, lower: char, upper: char) {
    if 'a' <= lower <= 'z' then upper as int == lower as int - 32 && (c == lower || c == upper)
    else !('A' <= lower <= 'Z') && c == lower && upper == lower
  }

  /** A character compares equal to `c` exactly when it is one of c's two spellings. */
  lemma FoldedCharIff(d: char, c: char, lower: char, upper: char)
    requires FoldsTo(c, lower, upper)
    ensures ToUpperAscii(d) == ToUpperAscii(c) <==> d == lower || d == upper
  {
  }

  /**
   * An independent reading of the prefix test: `s` starts with `prefix` ignoring case
   * exactly when each of its first characters is the lower-case or the upper-case
   * spelling of the prefix character there.
   */
  lemma StartsWithSpellings(s: string, prefix: string, lower: string, upper: string)
    requires |lower| == |upper| == |prefix|
    requires forall i :: 0 <= i < |prefix| ==> FoldsTo(prefix[i], lower[i], upper[i])
    ensures StartsWithIgnoreCase(s, prefix)
        <==> |prefix| <= |s| && forall i :: 0 <= i < |prefix| ==> s[i] == lower[i] || s[i] == upper[i]
  {
    if |prefix| <= |s| {
      forall i | 0 <= i < |prefix|
        ensures ToUpperAscii(s[i]) == ToUpperAscii(prefix[i]) <==> s[i] == lower[i] || s[i] == upper[i]
      {
        FoldedCharIff(s[i], prefix[i], lower[i], upper[i]);
      }
    }
  }

  /** "Bearer " is accepted in any mix of letter case, and nothing else is. */
  lemma BearerSpellings(s: string)
    ensures StartsWithIgnoreCase(s, BearerPrefix)
        <==> |s| >= 7 && forall i :: 0 <= i < 7 ==> s[i] == "bearer "[i] || s[i] == "BEARER "[i]
  {
    forall i | 0 <= i < 7 ensures FoldsTo(BearerPrefix[i], "bearer "[i], "BEARER "[i]) {
    }
    StartsWithSpellings(s, BearerPrefix, "bearer ", "BEARER ");
  }

  /** Likewise "Refresh ". */
  lemma RefreshSpellings(s: string)
    ensures StartsWithIgnoreCase(s, RefreshPrefix)
        <==> |s| >= 8 && forall i :: 0 <= i < 8 ==> s[i] == "refresh "[i] || s[i] == "REFRESH "[i]
  {
    forall i | 0 <= i < 8 ensures FoldsTo(RefreshPrefix[i], "refresh "[i], "REFRESH "[i]) {
    }
    StartsWithSpellings(s, RefreshPrefix, "refresh ", "REFRESH ");
  }

  /** What the raw header says about a credential for `scheme`. */
  datatype Parsed =
    | EmptyHeader           // the header value is the empty string
    | WrongScheme           // non-empty, but does not begin with the scheme prefix
    | Credential(value: string)  // the trimmed text after the prefix (possibly empty)

  /** The header value as `StringValues.ToString()` renders it: an absent header reads as "". */
  function HeaderText(header: Option<string>): string
  {
    if header.None? then "" else header.value
  }

  /** Classifies `header` against the scheme prefix, e.g. "Bearer " or "Refresh ". */
  function Parse(header: string, scheme: string): (r: Parsed)
    ensures r == EmptyHeader <==> header == ""
    ensures r == WrongScheme <==> header != "" && !StartsWithIgnoreCase(header, scheme)
    ensures r.Credential? ==> StartsWithIgnoreCase(header, scheme) && IsTrimmed(r.value)
  {
    if header == "" then EmptyHeader
    else if !StartsWithIgnoreCase(header, scheme) then WrongScheme
    else
      var rest := header[|scheme|..];
      TrimSpec(rest);
      Credential(Trim(rest))
  }

  /** Trim strips whitespace padding from both sides of a trimmed value, and nothing more. */
  lemma TrimPadded(pad1: string, value: string, pad2: string)
    requires forall i :: 0 <= i < |pad1| ==> IsWhiteSpace(pad1[i])
    requires forall i :: 0 <= i < |pad2| ==> IsWhiteSpace(pad2[i])
    requires IsTrimmed(value)
    ensures Trim(pad1 + value + pad2) == value
  {
    var rest := pad1 + value + pad2;
    if value == [] {
      assert rest == pad1 + pad2;
      forall i | 0 <= i < |rest| ensures IsWhiteSpace(rest[i]) {
        if i < |pad1| { assert rest[i] == pad1[i]; } else { assert rest[i] == pad2[i - |pad1|]; }
      }
      TrimEmptyIff(rest);
    } else {
      assert (value + pad2)[0] == value[0];
      assert rest == pad1 + (value + pad2);
      TrimStartOfPadded(pad1, value + pad2);
      TrimEndOfPadded(value, pad2);
    }
  }

  /** The credential is empty exactly when everything after the prefix is whitespace. */
  lemma EmptyCredentialIff(header: string, scheme: string)
    requires header != "" && StartsWithIgnoreCase(header, scheme)
    ensures Parse(header, scheme) == Credential("")
        <==> forall i :: |scheme| <= i < |header| ==> IsWhiteSpace(header[i])
  {
    var rest := header[|scheme|..];
    TrimEmptyIff(rest);
    if forall i :: |scheme| <= i < |header| ==> IsWhiteSpace(header[i]) {
      forall i | 0 <= i < |rest| ensures IsWhiteSpace(rest[i]) {
        assert rest[i] == header[|scheme| + i];
      }
    } else {
      var i :| |scheme| <= i < |header| && !IsWhiteSpace(header[i]);
      assert rest[i - |scheme|] == header[i];
    }
  }

  /**
   * Round trip: a header built as the scheme prefix (in any ASCII letter case) followed by
   * a credential padded with whitespace parses back to that credential.
   */
  lemma ParseRoundTrip(prefix: string, scheme: string, pad1: string, value: string, pad2: string)
    requires |prefix| == |scheme| > 0
    requires forall i :: 0 <= i < |scheme| ==> ToUpperAscii(prefix[i]) == ToUpperAscii(scheme[i])
    requires forall i :: 0 <= i < |pad1| ==> IsWhiteSpace(pad1[i])
    requires forall i :: 0 <= i < |pad2| ==> IsWhiteSpace(pad2[i])
    requires IsTrimmed(value)
    ensures Parse(prefix + (pad1 + value + pad2), scheme) == Credential(value)
  {
    var tail := pad1 + value + pad2;
    var h := prefix + tail;
    assert StartsWithIgnoreCase(h, scheme) by {
      forall i | 0 <= i < |scheme| ensures ToUpperAscii(h[i]) == ToUpperAscii(scheme[i]) {
        assert h[i] == prefix[i];
      }
    }
    assert h[|scheme|..] == tail;
    TrimPadded(pad1, value, pad2);
  }

  /** Hence "Bearer <token>" carries exactly <token> when the token has no surrounding whitespace. */
  lemma SchemeThenValue(scheme: string, value: string)
    requires |scheme| > 0 && IsTrimmed(value)
    ensures Parse(scheme + value, scheme) == Credential(value)
  {
    ParseRoundTrip(scheme, scheme, [], value, []);
    assert [] + value + [] == value;
  }

  lemma {:induction false} TrimStartOfPadded(pad: string, rest: string)
    requires forall i :: 0 <= i < |pad| ==> IsWhiteSpace(pad[i])
    requires rest == [] || !IsWhiteSpace(rest[0])
    ensures TrimStart(pad + rest) == rest
  {
    if pad != [] {
      assert (pad + rest)[1..] == pad[1..] + rest;
      TrimStartOfPadded(pad[1..], rest);
    }
  }

  lemma {:induction false} TrimEndOfPadded(value: string, pad: string)
    requires forall i :: 0 <= i < |pad| ==> IsWhiteSpace(pad[i])
    requires value == [] || !IsWhiteSpace(value[|value| - 1])
    ensures TrimEnd(value + pad) == value
  {
    if pad != [] {
      var p' := pad[..|pad| - 1];
      assert (value + pad)[..|value + pad| - 1] == value + p';
      TrimEndOfPadded(value, p');
    } else {
      assert value + pad == value;
    }
  }
}
