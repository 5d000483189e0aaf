/** The keys a BLOB store accepts: anything that is a valid URI path, without
    a leading, trailing or repeated slash and without a colon. */
module KeyConstraint {
  import opened Common

  /** The five forbidden regular expressions, in the order the source lists them. */
  datatype Pattern = Blank | LeadingSlash | TrailingSlash | MultipleSlashes | Colon

  const BadPatterns: seq<Pattern> := [Blank, LeadingSlash, TrailingSlash, MultipleSlashes, Colon]

  /** Ruby's `\Z`: position `i` is the end of `s`, or just before a final newline. */
  predicate AtEnd(s: string, i: nat)
  {
    i == |s| || (i + 1 == |s| && s[i] == '\n')
  }

  function HasChar(s: string, c: char): bool
  {
    if s == [] then false else s[0] == c || HasChar(s[1..], c)
  }

  function HasDoubleSlash(s: string): bool
  {
    if |s| < 2 then false else (s[0] == '/' && s[1] == '/') || HasDoubleSlash(s[1..])
  }

  /** Whether regular expression `p` matches somewhere in `s`. */
  predicate Matches(p: Pattern, s: string)
  {
    match p
    case Blank => AtEnd(s, 0)                                          // \A\Z
    case LeadingSlash => |s| > 0 && s[0] == '/'                         // \A/
    case TrailingSlash =>                                               // /\Z
      (|s| >= 1 && s[|s| - 1] == '/') || (|s| >= 2 && s[|s| - 2] == '/' && AtEnd(s, |s| - 1))
    case MultipleSlashes => HasDoubleSlash(s)                           // //+
    case Colon => HasChar(s, ':')                                       // :
  }

  /** `BAD_PATTERNS.none? { |pattern| pattern =~ key }` */
  predicate NoneMatch(patterns: seq<Pattern>, s: string)
  {
    forall p :: p in patterns ==> !Matches(p, s)
  }

  predicate IsAlpha(c: char) { 'a' <= c <= 'z' || 'A' <= c <= 'Z' }
  predicate IsDigit(c: char) { '0' <= c <= '9' }
  predicate IsHexDigit(c: char) { IsDigit(c) || 'a' <= c <= 'f' || 'A' <= c <= 'F' }

  /** `pchar` of section 3.3 of RFC 3986, less the percent-encoded triple. */
  predicate IsPathChar(c: char)
  {
    || IsAlpha(c) || IsDigit(c) || c == '-' || c == '.' || c == '_' || c == '~'   // unreserved
    || c == '!' || c == '$' || c == '&' || c == '\'' || c == '(' || c == ')'         // sub-delims
    || c == '*' || c == '+' || c == ',' || c == ';' || c == '='
    || c == ':' || c == '@'
  }

  /** `s` is made of path characters, `/` separators and `%HH` escapes only: then
      the whole of `s` parses as the path of a relative URI reference, and
      `URI.parse(s).path == s`. Any other character either makes the parse fail
      (whitespace, a lone `%`, non-ASCII) or starts a query or fragment (`?`, `#`),
      so that the parsed path is a proper prefix of `s`. */
  function PathRoundTrips(s: string): bool
    decreases |s|
  {
    if s == [] then true
    else if s[0] == '%' then
      |s| >= 3 && IsHexDigit(s[1]) && IsHexDigit(s[2]) && PathRoundTrips(s[3..])
    else
      (IsPathChar(s[0]) || s[0] == '/') && PathRoundTrips(s[1..])
  }

  /** `KeyConstraint.allows?`: a nil key is rejected because `URI.parse(nil)`
      raises `URI::InvalidURIError`, which is rescued as `false`. */
  predicate Allows(key: Option<string>)
  {
    match key
    case None => false
    case Some(s) => NoneMatch(BadPatterns, s) && PathRoundTrips(s)
  }

  /** `KeyConstraint.must_allow!`: raises `ArgumentError` exactly when the key
      is not allowed, and otherwise does nothing. */
  function MustAllow(key: Option<string>): (o: Outcome)
    ensures o.Pass? <==> Allows(key)
    ensures o.Fail? ==> o.error == InvalidKey(key)
  {
    if Allows(key) then Pass else Fail(InvalidKey(key))
  }

  // ---------------------------------------------------------------------------
  // The rule in index form, and its equivalence with the source's formulation.

  /** Every `%` opens an escape of two hex digits; every other character is a
      path character or `/`. */
  ghost predicate WellFormedPath(s: string)
  {
    && (forall i :: 0 <= i < |s| && s[i] != '%' ==> IsPathChar(s[i]) || s[i] == '/')
    && (forall i :: 0 <= i < |s| && s[i] == '%' ==>
          i + 2 < |s| && IsHexDigit(s[i + 1]) && IsHexDigit(s[i + 2]))
  }

  /** A key the store accepts, stated position by position. */
  ghost predicate ValidKey(s: string)
  {
    && s != []
    && s[0] != '/'
    && s[|s| - 1] != '/'
    && (forall i :: 0 <= i < |s| - 1 ==> !(s[i] == '/' && s[i + 1] == '/'))
    && (forall i :: 0 <= i < |s| ==> s[i] != ':')
    && WellFormedPath(s)
  }

  lemma {:induction false} HasCharIff(s: string, c: char)
    ensures HasChar(s, c) <==> exists i :: 0 <= i < |s| && s[i] == c
  {
    if s != [] {
      HasCharIff(s[1..], c);
      if HasChar(s[1..], c) {
        var i :| 0 <= i < |s| - 1 && s[1..][i] == c;
        assert s[i + 1] == c;
      }
      if s[0] != c && exists i :: 0 <= i < |s| && s[i] == c {
        var i :| 0 <= i < |s| && s[i] == c;
        assert s[1..][i - 1] == c;
      }
    }
  }

  lemma {:induction false} HasDoubleSlashIff(s: string)
    ensures HasDoubleSlash(s) <==> exists i :: 0 <= i < |s| - 1 && s[i] == '/' && s[i + 1] == '/'
  {
    if |s| >= 2 {
      HasDoubleSlashIff(s[1..]);
      if HasDoubleSlash(s[1..]) {
        var i :| 0 <= i < |s| - 2 && s[1..][i] == '/' && s[1..][i + 1] == '/';
        assert s[i + 1] == '/' && s[i + 2] == '/';
      }
      if !(s[0] == '/' && s[1] == '/') && exists i :: 0 <= i < |s| - 1 && s[i] == '/' && s[i + 1] == '/' {
        var i :| 0 <= i < |s| - 1 && s[i] == '/' && s[i + 1] == '/';
        assert s[1..][i - 1] == '/' && s[1..][i] == '/';
      }
    }
  }

  lemma {:induction false} PathRoundTripsIff(s: string)
    ensures PathRoundTrips(s) <==> WellFormedPath(s)
    decreases |s|
  {
    if s == [] {
    } else if s[0] == '%' {
      if |s| >= 3 && IsHexDigit(s[1]) && IsHexDigit(s[2]) {
        var t := s[3..];
        PathRoundTripsIff(t);
        if WellFormedPath(t) {
          forall i | 0 <= i < |s| && s[i] == '%'
            ensures i + 2 < |s| && IsHexDigit(s[i + 1]) && IsHexDigit(s[i + 2])
          {
            if i >= 3 { assert t[i - 3] == '%'; }
          }
          forall i | 0 <= i < |s| && s[i] != '%'
            ensures IsPathChar(s[i]) || s[i] == '/'
          {
            if i >= 3 { assert t[i - 3] == s[i]; }
          }
        }
        if WellFormedPath(s) {
          forall i | 0 <= i < |t| && t[i] == '%'
            ensures i + 2 < |t| && IsHexDigit(t[i + 1]) && IsHexDigit(t[i + 2])
          {
            assert s[i + 3] == '%';
          }
          forall i | 0 <= i < |t| && t[i] != '%'
            ensures IsPathChar(t[i]) || t[i] == '/'
          {
            assert s[i + 3] == t[i];
          }
        }
      }
    } else {
      var t := s[1..];
      PathRoundTripsIff(t);
      if WellFormedPath(s) {
        forall i | 0 <= i < |t| && t[i] == '%'
          ensures i + 2 < |t| && IsHexDigit(t[i + 1]) && IsHexDigit(t[i + 2])
        {
          assert s[i + 1] == '%';
        }
        forall i | 0 <= i < |t| && t[i] != '%'
          ensures IsPathChar(t[i]) || t[i] == '/'
        {
          assert s[i + 1] == t[i];
        }
      }
      if (IsPathChar(s[0]) || s[0] == '/') && WellFormedPath(t) {
        forall i | 0 <= i < |s| && s[i] == '%'
          ensures i + 2 < |s| && IsHexDigit(s[i + 1]) && IsHexDigit(s[i + 2])
        {
          assert t[i - 1] == '%';
        }
        forall i | 0 <= i < |s| && s[i] != '%'
          ensures IsPathChar(s[i]) || s[i] == '/'
        {
          if i >= 1 { assert t[i - 1] == s[i]; }
        }
      }
    }
  }

  /** `none?` over the five patterns, spelled out. */
  lemma NoneMatchBadPatterns(s: string)
    ensures NoneMatch(BadPatterns, s) <==>
      !Matches(Blank, s) && !Matches(LeadingSlash, s) && !Matches(TrailingSlash, s) &&
      !Matches(MultipleSlashes, s) && !Matches(Colon, s)
  {
    assert BadPatterns[0] == Blank && BadPatterns[1] == LeadingSlash;
    assert BadPatterns[2] == TrailingSlash && BadPatterns[3] == MultipleSlashes;
    assert BadPatterns[4] == Colon;
  }

  /** The source's rule (five regular expressions and a parse) is exactly the
      position-by-position rule: in particular a key that round-trips contains
      no newline, so Ruby's `\Z` adds nothing to the blank and trailing-slash tests. */
  lemma AllowsIff(s: string)
    ensures Allows(Some(s)) <==> ValidKey(s)
  {
    NoneMatchBadPatterns(s);
    PathRoundTripsIff(s);
    HasCharIff(s, ':');
    HasDoubleSlashIff(s);
    if WellFormedPath(s) && |s| > 0 {
      assert s[|s| - 1] != '\n' by {
        if s[|s| - 1] != '%' {
          assert IsPathChar(s[|s| - 1]) || s[|s| - 1] == '/';
        }
      }
    }
  }

  /** Two accepted keys joined by one `/` make an accepted key. */
  lemma JoinValid(a: string, b: string)
    requires ValidKey(a) && ValidKey(b)
    ensures ValidKey(a + "/" + b)
  {
    var s := a + "/" + b;
    var n := |a|;
    assert forall i :: 0 <= i < n ==> s[i] == a[i];
    assert s[n] == '/';
    assert forall i :: n < i < |s| ==> s[i] == b[i - n - 1];
    forall i | 0 <= i < |s| - 1 ensures !(s[i] == '/' && s[i + 1] == '/') {
      if i < n - 1 {
        assert s[i] == a[i] && s[i + 1] == a[i + 1];
      } else if i == n - 1 {
        assert s[i] == a[n - 1];
      } else if i == n {
        assert s[i + 1] == b[0];
      } else {
        assert s[i] == b[i - n - 1] && s[i + 1] == b[i - n];
      }
    }
    forall i | 0 <= i < |s| && s[i] == '%'
      ensures i + 2 < |s| && IsHexDigit(s[i + 1]) && IsHexDigit(s[i + 2])
    {
      if i < n {
        assert a[i] == '%';
        assert s[i + 1] == a[i + 1] && s[i + 2] == a[i + 2];
      } else {
        assert b[i - n - 1] == '%';
        assert s[i + 1] == b[i - n] && s[i + 2] == b[i - n + 1];
      }
    }
  }

  /** A key holding whitespace, `?` or `#` anywhere is rejected: those would
      end the path or break the parse. */
  lemma ValidKeyExcludes(s: string, i: nat)
    requires i < |s| && s[i] in " \t\r\n?#"
    ensures !Allows(Some(s))
  {
    AllowsIff(s);
    assert s[i] != '%' && s[i] != '/' && !IsPathChar(s[i]);
  }

  /** The keys every store must reject. */
  lemma RejectedKeyExamples()
    ensures !Allows(None) && !Allows(Some("")) && !Allows(Some("foo?"))
    ensures !Allows(Some("foo:blah"))
  {
    NoneMatchBadPatterns("");
    NoneMatchBadPatterns("foo:blah");
    assert Matches(Colon, "foo:blah") by { HasCharIff("foo:blah", ':'); assert "foo:blah"[3] == ':'; }
    ValidKeyExcludes("foo?", 3);
  }

  /** Keys with a leading, trailing or doubled slash are rejected. */
  lemma SlashRejectedExamples()
    ensures !Allows(Some("/foo")) && !Allows(Some("foo/")) && !Allows(Some("foo//bar"))
  {
    NoneMatchBadPatterns("/foo");
    NoneMatchBadPatterns("foo/");
    NoneMatchBadPatterns("foo//bar");
    assert Matches(MultipleSlashes, "foo//bar") by {
      HasDoubleSlashIff("foo//bar");
      assert "foo//bar"[3] == '/' && "foo//bar"[4] == '/';
    }
  }

  /** Whitespace inside a key is rejected. */
  lemma WhitespaceRejected()
    ensures !Allows(Some("foo bar")) && !Allows(Some("foo\tbar")) && !Allows(Some("foo\nbar"))
  {
    ValidKeyExcludes("foo bar", 3);
    ValidKeyExcludes("foo\tbar", 3);
    ValidKeyExcludes("foo\nbar", 3);
  }

  /** A multi-segment key is accepted. */
  lemma SlashesAllowed()
    ensures Allows(Some("foo/bar/baz"))
  {
    var s := "foo/bar/baz";
    assert ValidKey(s) by {
      assert s[0] == 'f' && s[|s| - 1] == 'z';
      assert forall i :: 0 <= i < |s| ==> s[i] != '%' && s[i] != ':' && (IsPathChar(s[i]) || s[i] == '/');
      assert forall i :: 0 <= i < |s| - 1 ==> !(s[i] == '/' && s[i + 1] == '/');
    }
    AllowsIff(s);
  }

  /** Sub-delimiters and other URI-safe punctuation are accepted. */
  lemma MetacharactersAllowed()
    ensures Allows(Some("@$&*.,;()~"))
  {
    var s := "@$&*.,;()~";
    assert ValidKey(s) by {
      assert forall i :: 0 <= i < |s| ==> s[i] != '%' && s[i] != ':' && s[i] != '/' && IsPathChar(s[i]);
    }
    AllowsIff(s);
  }
}
