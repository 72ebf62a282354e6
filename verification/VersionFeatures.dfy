/** mbedtls_version_check_feature: a sentinel-terminated array of C strings is searched for
    a name. */
module VersionFeatures {
  import opened CText

  const PREFIX := "MBEDTLS_"

  /** A C string in an allocation of exactly its size: reading past the NUL would be out of
      bounds. */
  ghost predicate IsCString(a: array<char>)
    reads a
  {
    a.Length > 0 && a[a.Length - 1] == NUL && NulFree(a[..a.Length - 1])
  }

  ghost function TextOf(a: array<char>): string
    requires IsCString(a)
    reads a
  {
    a[..a.Length - 1]
  }

  /** An array of C strings, allocated up to and including the null sentinel. */
  ghost predicate IsList(features: array<array?<char>>)
    reads features, set i | 0 <= i < features.Length :: features[i]
  {
    && features.Length > 0 && features[features.Length - 1] == null
    && forall i :: 0 <= i < features.Length - 1 ==> features[i] != null && IsCString(features[i])
  }

  ghost predicate Listed(features: array<array?<char>>, name: string)
    requires IsList(features)
    reads features, set i | 0 <= i < features.Length :: features[i]
  {
    exists i :: 0 <= i < features.Length - 1 && TextOf(features[i]) == name
  }

  /** !strncmp(a, b, n) for a string constant `b` */
  method SameStart(a: array<char>, b: string, n: nat) returns (same: bool)
    requires IsCString(a) && NulFree(b) && n <= |b|
    ensures same <==> b[..n] <= TextOf(a)
  {
    var k := 0;
    while k < n
      invariant 0 <= k <= n && k < a.Length
      invariant b[..k] == a[..k]
    {
      if a[k] != b[k] {
        assert b[..n][k] == b[k];
        return false;
      }
      assert b[k] in b;
      k := k + 1;
    }
    assert b[..n] == TextOf(a)[..n];
    return true;
  }

  lemma EndsAt(a: array<char>, k: nat)
    requires IsCString(a) && k < a.Length
    ensures a[k] == NUL <==> k == a.Length - 1
  {
  }

  lemma DiffersAt(a: array<char>, b: array<char>, from: nat, k: nat)
    requires IsCString(a) && IsCString(b) && k < a.Length && from + k < b.Length && a[k] != b[from + k]
    ensures TextOf(a) != TextOf(b)[from..]
  {
  }

  /** !strcmp(a, b + from) */
  method SameText(a: array<char>, b: array<char>, from: nat) returns (same: bool)
    requires IsCString(a) && IsCString(b) && from < b.Length
    ensures same <==> TextOf(a) == TextOf(b)[from..]
  {
    var k := 0;
    while a[k] == b[from + k] && a[k] != NUL
      invariant 0 <= k < a.Length && from + k < b.Length
      invariant a[..k] == b[from..from + k]
      decreases a.Length - k
    {
      assert a[..a.Length - 1] == TextOf(a) && b[..b.Length - 1] == TextOf(b);
      assert k < a.Length - 1 && from + k < b.Length - 1;
      k := k + 1;
    }
    if a[k] == b[from + k] {
      EndsAt(a, k);
      EndsAt(b, from + k);
      assert TextOf(b)[from..] == b[from..from + k];
      return true;
    }
    DiffersAt(a, b, from, k);
    return false;
  }

  /** -2 on an empty list, 0 for a listed name behind the prefix, -1 for everything else,
      null and short strings included. */
  method CheckFeature(features: array<array?<char>>, feature: array?<char>) returns (r: int)
    requires IsList(features)
    requires feature != null ==> IsCString(feature)
    ensures r == -2 <==> features.Length == 1
    ensures r == 0 <==> (&& features.Length > 1 && feature != null
                         && PREFIX <= TextOf(feature) && Listed(features, TextOf(feature)[8..]))
    ensures r in {0, -1, -2}
  {
    var idx := 0;
    if features[idx] == null {
      return -2;
    }
    if feature == null {
      return -1;
    }
    var prefixed := SameStart(feature, PREFIX, 8);
    assert PREFIX[..8] == PREFIX;
    if !prefixed {
      return -1;
    }
    while features[idx] != null
      invariant 0 <= idx < features.Length
      invariant forall i :: 0 <= i < idx ==> TextOf(features[i]) != TextOf(feature)[8..]
      decreases features.Length - idx
    {
      var same := SameText(features[idx], feature, 8);
      if same {
        return 0;
      }
      idx := idx + 1;
    }
    return -1;
  }
}
