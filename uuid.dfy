/** KnowUnity.extract_uuid of maingui.py: re.search for the pattern
    [0-9a-f]{8}-([0-9a-f]{4}-){3}[0-9a-f]{12}, returning the leftmost match
    or None. The pattern has no alternatives and a fixed length of 36, so a
    match at a position is the 36 characters there, and re.search returns the
    window at the smallest position where the pattern fits. The pattern is
    case-sensitive: only lower-case hex digits match. */
module Uuid {
  import opened Common

  const UUID_LENGTH: nat := 36

  predicate IsLowerHex(c: char)
  {
    '0' <= c <= '9' || 'a' <= c <= 'f'
  }

  /** The positions of the four hyphens in a UUID. */
  predicate IsDashPosition(k: int)
  {
    k == 8 || k == 13 || k == 18 || k == 23
  }

  /** The UUID shape position by position: 36 characters, '-' at 8, 13, 18
      and 23, a lower-case hex digit everywhere else. */
  predicate UuidShape(t: string)
  {
    |t| == UUID_LENGTH &&
    forall k :: 0 <= k < |t| ==> if IsDashPosition(k) then t[k] == '-' else IsLowerHex(t[k])
  }

  /** [0-9a-f]{n} */
  predicate HexRun(s: string, n: nat)
  {
    |s| == n && forall k :: 0 <= k < |s| ==> IsLowerHex(s[k])
  }

  /** One repetition of the group ([0-9a-f]{4}-). */
  predicate HexGroup(g: string)
  {
    |g| == 5 && HexRun(g[..4], 4) && g[4] == '-'
  }

  /** The regular expression read literally, piece by piece. */
  predicate MatchesUuidPattern(t: string)
  {
    |t| == UUID_LENGTH &&
    HexRun(t[..8], 8) && t[8] == '-' &&
    HexGroup(t[9..14]) && HexGroup(t[14..19]) && HexGroup(t[19..24]) &&
    HexRun(t[24..], 12)
  }

  /** The positional shape is exactly what the regular expression matches. */
  lemma UuidShapeIsPattern(t: string)
    ensures UuidShape(t) <==> MatchesUuidPattern(t)
  {
    if |t| == UUID_LENGTH {
      var a, g1, g2, g3, e := t[..8], t[9..14], t[14..19], t[19..24], t[24..];
      assert forall k :: 0 <= k < 8 ==> a[k] == t[k];
      assert forall k :: 0 <= k < 5 ==> g1[k] == t[9 + k] && g2[k] == t[14 + k] && g3[k] == t[19 + k];
      assert forall k :: 0 <= k < 4 ==> g1[..4][k] == g1[k] && g2[..4][k] == g2[k] && g3[..4][k] == g3[k];
      assert forall k :: 0 <= k < 12 ==> e[k] == t[24 + k];
      if MatchesUuidPattern(t) {
        forall k | 0 <= k < |t|
          ensures if IsDashPosition(k) then t[k] == '-' else IsLowerHex(t[k])
        {
          if k < 8 {
            assert IsLowerHex(a[k]);
          } else if 9 <= k < 13 {
            assert IsLowerHex(g1[..4][k - 9]);
          } else if 14 <= k < 18 {
            assert IsLowerHex(g2[..4][k - 14]);
          } else if 19 <= k < 23 {
            assert IsLowerHex(g3[..4][k - 19]);
          } else if 24 <= k {
            assert IsLowerHex(e[k - 24]);
          }
        }
      }
    }
  }

  /** The pattern matches the 36 characters of s that start at i. */
  predicate MatchesAt(s: string, i: nat)
  {
    i + UUID_LENGTH <= |s| && UuidShape(s[i..i + UUID_LENGTH])
  }

  /** The regex engine's scan from position i onwards: the first position at
      which the pattern matches, or None when it matches nowhere from i on. */
  function SearchFrom(s: string, i: nat): (r: Option<nat>)
    requires i <= |s|
    ensures r.Some? ==> i <= r.value && MatchesAt(s, r.value)
    ensures r.Some? ==> forall j :: i <= j < r.value ==> !MatchesAt(s, j)
    ensures r.None? ==> forall j :: i <= j ==> !MatchesAt(s, j)
    decreases |s| - i
  {
    if i + UUID_LENGTH > |s| then None
    else if MatchesAt(s, i) then Some(i)
    else SearchFrom(s, i + 1)
  }

  /** re.search(UUID_REGEX, url).group(), or None: the leftmost substring of
      the URL that has the UUID shape. */
  function ExtractUuid(url: string): (r: Option<string>)
    ensures r.None? <==> forall j :: !MatchesAt(url, j)
    ensures r.Some? ==> UuidShape(r.value) && MatchesUuidPattern(r.value)
    ensures r.Some? ==> exists j: nat :: MatchesAt(url, j) && r.value == url[j..j + UUID_LENGTH] &&
                                   forall k :: 0 <= k < j ==> !MatchesAt(url, k)
  {
    match SearchFrom(url, 0)
    case None => None
    case Some(j) =>
      UuidShapeIsPattern(url[j..j + UUID_LENGTH]);
      Some(url[j..j + UUID_LENGTH])
  }
}
