/** The C string routines device discovery relies on, over `seq<char>`.

    A C routine reads a string up to its NUL terminator; reading past the end
    of a Dafny sequence is modelled as reading that terminator.
 */
module CStrings {

  const Nul: char := '\0'
  const Comma: char := ','

  /** The character a C routine sees at index `i`. */
  function CharAt(s: string, i: nat): char {
    if i < |s| then s[i] else Nul
  }

  /** The characters a C routine limited to `n` characters reads from `s`:
      at most `n` of them, stopping at the first NUL. This is also what
      `strncpy_s(dst, s, n)` leaves in `dst`. */
  function CPrefix(s: string, n: nat): (p: string)
    ensures |p| <= n && p <= s
    ensures forall i :: 0 <= i < |p| ==> p[i] != Nul
    ensures |p| == n || |p| == |s| || s[|p|] == Nul
  {
    if n == 0 || |s| == 0 || s[0] == Nul then [] else [s[0]] + CPrefix(s[1..], n - 1)
  }

  /** `strncmp(a, b, n) == 0`, compared one character at a time the way the C
      library does: stop at the first difference, at a common terminator, or
      after `n` characters. */
  predicate StrNEqual(a: string, b: string, n: nat)
    decreases n
  {
    if n == 0 then true
    else if CharAt(a, 0) != CharAt(b, 0) then false
    else if CharAt(a, 0) == Nul then true
    else StrNEqual(a[1..], b[1..], n - 1)
  }

  /** `strncmp(a, b, n) == 0` exactly when both strings have the same first
      `n` characters before their terminators. */
  lemma {:induction false} StrNEqualIffPrefixesEqual(a: string, b: string, n: nat)
    ensures StrNEqual(a, b, n) <==> CPrefix(a, n) == CPrefix(b, n)
    decreases n
  {
    if n == 0 || CharAt(a, 0) == Nul || CharAt(b, 0) == Nul {
    } else {
      StrNEqualIffPrefixesEqual(a[1..], b[1..], n - 1);
      if CharAt(a, 0) == CharAt(b, 0) {
        assert CPrefix(a, n) == [a[0]] + CPrefix(a[1..], n - 1);
        assert CPrefix(b, n) == [b[0]] + CPrefix(b[1..], n - 1);
      } else {
        assert CPrefix(a, n)[0] != CPrefix(b, n)[0];
      }
    }
  }

  /** Copying at most `n` characters a second time changes nothing. */
  lemma CPrefixIdempotent(s: string, n: nat)
    ensures CPrefix(CPrefix(s, n), n) == CPrefix(s, n)
  {
  }

  /** A token `strtok_s` can return: non-empty, holding no delimiter and no
      terminator. */
  predicate IsToken(t: string) {
    |t| > 0 && forall i :: 0 <= i < |t| ==> t[i] != Comma && t[i] != Nul
  }

  /** Length of the token at the head of `s`: up to the first delimiter or
      terminator. */
  function TokenLength(s: string): (k: nat)
    ensures k <= |s|
    ensures forall i :: 0 <= i < k ==> s[i] != Comma && s[i] != Nul
    ensures k == |s| || s[k] == Comma || s[k] == Nul
  {
    if |s| == 0 || s[0] == Comma || s[0] == Nul then 0 else 1 + TokenLength(s[1..])
  }

  /** The tokens successive `strtok_s(_, ",", _)` calls return: the maximal
      runs of non-delimiter characters before the terminator, with empty runs
      between adjacent delimiters skipped. */
  function Tokens(s: string): (ts: seq<string>)
    ensures forall i :: 0 <= i < |ts| ==> IsToken(ts[i])
    decreases |s|
  {
    if |s| == 0 || s[0] == Nul then []
    else if s[0] == Comma then Tokens(s[1..])
    else
      var k := TokenLength(s);
      [s[..k]] + Tokens(s[k..])
  }

  /** The comma-separated list a device enumeration produces. */
  function Join(ts: seq<string>): string
    decreases |ts|
  {
    if |ts| == 0 then []
    else if |ts| == 1 then ts[0]
    else ts[0] + [Comma] + Join(ts[1..])
  }

  /** A field of a comma-separated list: any run without a delimiter or a
      terminator, possibly empty. */
  predicate IsField(f: string) {
    forall i :: 0 <= i < |f| ==> f[i] != Comma && f[i] != Nul
  }

  /** The fields that are not empty, in order. */
  function NonEmpty(fs: seq<string>): seq<string>
    decreases |fs|
  {
    if |fs| == 0 then []
    else if |fs[0]| == 0 then NonEmpty(fs[1..])
    else [fs[0]] + NonEmpty(fs[1..])
  }

  /** The token at the head of a field followed by a delimiter or the end is
      the whole field. */
  lemma {:induction false} TokenLengthOfField(f: string, rest: string)
    requires IsField(f)
    requires rest == [] || rest[0] == Comma
    ensures TokenLength(f + rest) == |f|
    decreases |f|
  {
    if |f| > 0 {
      assert (f + rest)[0] == f[0];
      assert (f + rest)[1..] == f[1..] + rest;
      assert IsField(f[1..]) by {
        forall i | 0 <= i < |f[1..]| ensures f[1..][i] != Comma && f[1..][i] != Nul {
          assert f[1..][i] == f[i + 1];
        }
      }
      TokenLengthOfField(f[1..], rest);
    } else {
      assert f + rest == rest;
    }
  }

  /** Tokenising a comma-joined list of fields gives back its non-empty fields
      in order: an empty field (a leading, trailing or doubled comma) is
      skipped, and the fields on either side of it stay separate tokens. */
  lemma {:induction false} TokensOfJoin(fs: seq<string>)
    requires forall i :: 0 <= i < |fs| ==> IsField(fs[i])
    ensures Tokens(Join(fs)) == NonEmpty(fs)
    decreases |fs|
  {
    if |fs| == 0 {
    } else if |fs| == 1 {
      var f := fs[0];
      assert NonEmpty(fs) == (if |f| == 0 then [] else [f]);
      if |f| > 0 {
        TokenLengthOfField(f, []);
        assert f + [] == f;
        assert f[..|f|] == f;
        assert f[|f|..] == [];
      }
    } else {
      var f := fs[0];
      var rest := [Comma] + Join(fs[1..]);
      var s := f + rest;
      assert Join(fs) == s;
      assert rest[1..] == Join(fs[1..]);
      TokensOfJoin(fs[1..]);
      if |f| == 0 {
        assert s == rest;
      } else {
        TokenLengthOfField(f, rest);
        assert s[..|f|] == f;
        assert s[|f|..] == rest;
        assert Tokens(s) == [f] + Tokens(rest);
      }
    }
  }

  /** Where the first field of `s` ends: at the first comma, or at the end. */
  function FieldLength(s: string): (k: nat)
    ensures k <= |s|
    ensures forall i :: 0 <= i < k ==> s[i] != Comma
    ensures k == |s| || s[k] == Comma
  {
    if |s| == 0 || s[0] == Comma then 0 else 1 + FieldLength(s[1..])
  }

  /** The fields of `s` between its commas, empty ones included. */
  function Fields(s: string): (fs: seq<string>)
    ensures |fs| > 0
    decreases |s|
  {
    var k := FieldLength(s);
    if k == |s| then [s] else [s[..k]] + Fields(s[k + 1..])
  }

  lemma {:induction false} JoinOfFields(s: string)
    ensures Join(Fields(s)) == s
    decreases |s|
  {
    var k := FieldLength(s);
    if k < |s| {
      var fs := Fields(s);
      var rest := s[k + 1..];
      assert fs == [s[..k]] + Fields(rest);
      JoinOfFields(rest);
      assert |fs| >= 2 && fs[0] == s[..k];
      assert fs[1..] == Fields(rest);
      assert Join(fs) == s[..k] + [Comma] + Join(Fields(rest));
      assert s == s[..k] + [Comma] + rest;
    }
  }

  lemma {:induction false} FieldsOfCString(s: string)
    requires forall i :: 0 <= i < |s| ==> s[i] != Nul
    ensures forall j :: 0 <= j < |Fields(s)| ==> IsField(Fields(s)[j])
    decreases |s|
  {
    var k := FieldLength(s);
    if k < |s| {
      var fs := Fields(s);
      var rest := s[k + 1..];
      assert fs == [s[..k]] + Fields(rest);
      assert IsField(s[..k]);
      assert forall i :: 0 <= i < |rest| ==> rest[i] == s[k + 1 + i];
      FieldsOfCString(rest);
      assert forall j :: 1 <= j < |fs| ==> fs[j] == Fields(rest)[j - 1];
    } else {
      assert Fields(s) == [s];
    }
  }

  /** Splitting at the commas and joining again gives back the list, and
      every piece of a list without terminator is a field. */
  lemma JoinFields(s: string)
    ensures Join(Fields(s)) == s
    ensures (forall i :: 0 <= i < |s| ==> s[i] != Nul) ==>
      forall j :: 0 <= j < |Fields(s)| ==> IsField(Fields(s)[j])
  {
    JoinOfFields(s);
    if forall i :: 0 <= i < |s| ==> s[i] != Nul {
      FieldsOfCString(s);
    }
  }

  /** Length of the C string held in `s`: up to its first terminator. */
  function CLength(s: string): (n: nat)
    ensures n <= |s|
    ensures forall i :: 0 <= i < n ==> s[i] != Nul
    ensures n == |s| || s[n] == Nul
  {
    if |s| == 0 || s[0] == Nul then 0 else 1 + CLength(s[1..])
  }

  /** Skipping `k` characters before the terminator shortens the C string by
      exactly `k`. */
  lemma {:induction false} CLengthSkip(s: string, k: nat)
    requires k <= CLength(s)
    ensures CLength(s[k..]) == CLength(s) - k
    decreases k
  {
    if k > 0 {
      CLengthSkip(s[1..], k - 1);
      assert s[1..][k - 1..] == s[k..];
    }
  }

  /** Cutting a string after its head token does not change the head token. */
  lemma {:induction false} TokenLengthOfPrefix(s: string, m: nat)
    requires TokenLength(s) <= m <= |s|
    ensures TokenLength(s[..m]) == TokenLength(s)
    decreases m
  {
    if |s| > 0 && s[0] != Comma && s[0] != Nul {
      assert s[..m][1..] == s[1..][..m - 1];
      TokenLengthOfPrefix(s[1..], m - 1);
    }
  }

  /** `strtok_s` never reads past the terminator: whatever follows the first
      NUL has no effect on the tokens. */
  lemma {:induction false} TokensStopAtNul(s: string)
    ensures Tokens(s) == Tokens(s[..CLength(s)])
    decreases |s|
  {
    var n := CLength(s);
    var t := s[..n];
    if |s| == 0 || s[0] == Nul {
      assert t == [];
    } else if s[0] == Comma {
      TokensStopAtNul(s[1..]);
      assert t[1..] == s[1..][..CLength(s[1..])];
    } else {
      var k := TokenLength(s);
      TokenLengthOfPrefix(s, n);
      CLengthSkip(s, k);
      TokensStopAtNul(s[k..]);
      assert t[0] == s[0];
      assert Tokens(t) == [t[..k]] + Tokens(t[k..]);
      assert t[..k] == s[..k];
      assert t[k..] == s[k..][..CLength(s[k..])];
    }
  }

  /** The tokens successive `strtok_s` calls return are exactly the non-empty
      comma-separated fields of the C string, in order. */
  lemma TokensAreNonEmptyFields(s: string)
    ensures Tokens(s) == NonEmpty(Fields(s[..CLength(s)]))
  {
    var t := s[..CLength(s)];
    TokensStopAtNul(s);
    JoinFields(t);
    TokensOfJoin(Fields(t));
  }

  /** All tokens laid end to end. */
  function Concat(ts: seq<string>): string
    decreases |ts|
  {
    if |ts| == 0 then [] else ts[0] + Concat(ts[1..])
  }

  /** The characters of the C string in `s` that are not delimiters, in order. */
  function NonDelimiters(s: string): string
    decreases |s|
  {
    if |s| == 0 || s[0] == Nul then []
    else if s[0] == Comma then NonDelimiters(s[1..])
    else [s[0]] + NonDelimiters(s[1..])
  }

  lemma {:induction false} NonDelimitersSplit(s: string, k: nat)
    requires k <= |s|
    requires forall i :: 0 <= i < k ==> s[i] != Comma && s[i] != Nul
    ensures NonDelimiters(s) == s[..k] + NonDelimiters(s[k..])
    decreases k
  {
    if k > 0 {
      NonDelimitersSplit(s[1..], k - 1);
      assert s[1..][k - 1..] == s[k..];
      assert s[..k] == [s[0]] + s[1..][..k - 1];
    }
  }

  /** Tokenising loses no character of the list but the delimiters, and adds
      none. */
  lemma {:induction false} TokensKeepContent(s: string)
    ensures Concat(Tokens(s)) == NonDelimiters(s)
    decreases |s|
  {
    if |s| == 0 || s[0] == Nul {
    } else if s[0] == Comma {
      TokensKeepContent(s[1..]);
    } else {
      var k := TokenLength(s);
      NonDelimitersSplit(s, k);
      TokensKeepContent(s[k..]);
      var ts := Tokens(s);
      assert ts[0] == s[..k] && ts[1..] == Tokens(s[k..]);
    }
  }
}
