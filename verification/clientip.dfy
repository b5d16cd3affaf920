/** `GetClientIP`: the client address taken from, in order of precedence,
    `X-Forwarded-For`, `X-Real-IP` and the connection's remote address. A header
    that is absent reads as the empty string, as `Header.Get` returns it. */
module ClientIp {

  import opened GoStrings

  /** `ip` is the first comma-separated field of `f` with its white space trimmed:
      `f[..k]` is that field (`k` is the first comma, or the end of `f`), and `ip`
      is what remains of it once the spaces `f[..i]` and `f[j..k]` are cut off. */
  ghost predicate TrimmedFirstField(f: string, ip: string)
  {
    exists i, j, k :: 0 <= i <= j <= k <= |f| && ip == f[i..j]
      && ',' !in f[..k] && (k < |f| ==> f[k] == ',')
      && AllSpace(f[..i]) && AllSpace(f[j..k])
      && (ip != [] ==> !IsSpace(ip[0]) && !IsSpace(ip[|ip| - 1]))
  }

  function GetClientIp(forwardedFor: string, realIp: string, remoteAddr: string): (ip: string)
    // a non-empty X-Forwarded-For decides alone: its first comma-separated field, trimmed
    ensures forwardedFor != "" ==> ',' !in ip && TrimmedFirstField(forwardedFor, ip)
    ensures forwardedFor == "" && realIp != "" ==> ip == realIp
    // otherwise the host part of host:port, i.e. everything before the first colon
    ensures forwardedFor == "" && realIp == "" && ':' in remoteAddr ==>
              ':' !in ip && |ip| < |remoteAddr| && remoteAddr[..|ip|] == ip && remoteAddr[|ip|] == ':'
    ensures forwardedFor == "" && realIp == "" && ':' !in remoteAddr ==> ip == remoteAddr
  {
    if forwardedFor != "" then
      FirstFieldTrimmed(forwardedFor);
      TrimSpace(BeforeFirst(forwardedFor, ','))
    else if realIp != "" then realIp
    else if ':' in remoteAddr then BeforeFirst(remoteAddr, ':')
    else remoteAddr
  }

  lemma FirstFieldTrimmed(s: string)
    ensures var ip := TrimSpace(BeforeFirst(s, ','));
            ',' !in ip && TrimmedFirstField(s, ip)
  {
    var first := BeforeFirst(s, ',');
    var ip := TrimSpace(first);
    var i := LeadingSpaces(first);
    var j := i + |ip|;
    var k := |first|;
    SliceOfPrefix(s, first, i, j);
    assert ip == s[i..j];
    SliceOfPrefix(s, first, 0, i);
    assert s[..i] == first[..i];
    SliceOfPrefix(s, first, j, k);
    assert first[j..k] == first[j..];
    assert s[j..k] == first[j..];
    SliceOfPrefix(s, first, 0, k);
    assert s[..k] == first;
    assert ',' !in ip by {
      assert forall m :: 0 <= m < |ip| ==> ip[m] == first[i + m];
    }
    TrimmedFirstFieldIntro(s, ip, i, j, k);
  }

  lemma TrimmedFirstFieldIntro(f: string, ip: string, i: nat, j: nat, k: nat)
    requires i <= j <= k <= |f| && ip == f[i..j]
    requires ',' !in f[..k] && (k < |f| ==> f[k] == ',')
    requires AllSpace(f[..i]) && AllSpace(f[j..k])
    requires ip != [] ==> !IsSpace(ip[0]) && !IsSpace(ip[|ip| - 1])
    ensures TrimmedFirstField(f, ip)
  {
  }

  lemma SliceOfPrefix(s: string, p: string, i: nat, j: nat)
    requires |p| <= |s| && s[..|p|] == p && i <= j <= |p|
    ensures s[i..j] == p[i..j] && s[..j] == p[..j]
  {
    assert forall k :: i <= k < j ==> s[k] == s[..|p|][k];
    assert forall k :: 0 <= k < j ==> s[k] == s[..|p|][k];
  }

  /** The description pins the address down: at most one string is the trimmed first
      field of a header, so `GetClientIp` could not have answered anything else. */
  lemma TrimmedFirstFieldUnique(f: string, a: string, b: string)
    requires TrimmedFirstField(f, a) && TrimmedFirstField(f, b)
    ensures a == b
  {
    var i1, j1, k1 := FieldBounds(f, a);
    var i2, j2, k2 := FieldBounds(f, b);
    BoundsDetermineField(f, a, i1, j1, k1, b, i2, j2, k2);
  }

  lemma BoundsDetermineField(f: string, a: string, i1: nat, j1: nat, k1: nat, b: string, i2: nat, j2: nat, k2: nat)
    requires i1 <= j1 <= k1 <= |f| && a == f[i1..j1]
    requires ',' !in f[..k1] && (k1 < |f| ==> f[k1] == ',')
    requires AllSpace(f[..i1]) && AllSpace(f[j1..k1])
    requires a != [] ==> !IsSpace(a[0]) && !IsSpace(a[|a| - 1])
    requires i2 <= j2 <= k2 <= |f| && b == f[i2..j2]
    requires ',' !in f[..k2] && (k2 < |f| ==> f[k2] == ',')
    requires AllSpace(f[..i2]) && AllSpace(f[j2..k2])
    requires b != [] ==> !IsSpace(b[0]) && !IsSpace(b[|b| - 1])
    ensures a == b
  {
    FirstCommaUnique(f, k1, k2);
    SameFieldSameTrim(f, k1, i1, j1, i2, j2);
  }

  /** The cut points behind a trimmed first field. */
  lemma FieldBounds(f: string, ip: string) returns (i: nat, j: nat, k: nat)
    requires TrimmedFirstField(f, ip)
    ensures i <= j <= k <= |f| && ip == f[i..j]
    ensures ',' !in f[..k] && (k < |f| ==> f[k] == ',')
    ensures AllSpace(f[..i]) && AllSpace(f[j..k])
    ensures ip != [] ==> !IsSpace(ip[0]) && !IsSpace(ip[|ip| - 1])
  {
    i, j, k :| 0 <= i <= j <= k <= |f| && ip == f[i..j]
      && ',' !in f[..k] && (k < |f| ==> f[k] == ',')
      && AllSpace(f[..i]) && AllSpace(f[j..k])
      && (ip != [] ==> !IsSpace(ip[0]) && !IsSpace(ip[|ip| - 1]));
  }

  /** `f[..n]` lacks `c` at every position. */
  lemma NotInPrefix(f: string, c: char, n: nat)
    requires n <= |f| && c !in f[..n]
    ensures forall m :: 0 <= m < n ==> f[m] != c
  {
    assert forall m :: 0 <= m < n ==> f[..n][m] == f[m];
  }

  /** `f[lo..hi]` is white space at every position. */
  lemma SpaceInRange(f: string, lo: nat, hi: nat)
    requires lo <= hi <= |f| && AllSpace(f[lo..hi])
    ensures forall m :: lo <= m < hi ==> IsSpace(f[m])
  {
    assert forall m :: lo <= m < hi ==> f[lo..hi][m - lo] == f[m];
  }

  /** The end of the first field is the first comma, or the end of the text. */
  lemma FirstCommaUnique(f: string, k1: nat, k2: nat)
    requires k1 <= |f| && ',' !in f[..k1] && (k1 < |f| ==> f[k1] == ',')
    requires k2 <= |f| && ',' !in f[..k2] && (k2 < |f| ==> f[k2] == ',')
    ensures k1 == k2
  {
    NotInPrefix(f, ',', k1);
    NotInPrefix(f, ',', k2);
  }

  lemma EndsOfSlice(f: string, i: nat, j: nat)
    requires i < j <= |f|
    ensures f[i..j][0] == f[i] && f[i..j][j - i - 1] == f[j - 1]
  {
  }

  /** Within one field, trimming the white space off both ends can be done one way only. */
  lemma SameFieldSameTrim(f: string, k: nat, i1: nat, j1: nat, i2: nat, j2: nat)
    requires i1 <= j1 <= k <= |f| && i2 <= j2 <= k
    requires AllSpace(f[..i1]) && AllSpace(f[j1..k]) && AllSpace(f[..i2]) && AllSpace(f[j2..k])
    requires f[i1..j1] != [] ==> !IsSpace(f[i1..j1][0]) && !IsSpace(f[i1..j1][j1 - i1 - 1])
    requires f[i2..j2] != [] ==> !IsSpace(f[i2..j2][0]) && !IsSpace(f[i2..j2][j2 - i2 - 1])
    ensures f[i1..j1] == f[i2..j2]
  {
    if i1 < j1 { EndsOfSlice(f, i1, j1); }
    if i2 < j2 { EndsOfSlice(f, i2, j2); }
    assert f[..i1] == f[0..i1] && f[..i2] == f[0..i2];
    SpaceInRange(f, 0, i1);
    SpaceInRange(f, 0, i2);
    SpaceInRange(f, j1, k);
    SpaceInRange(f, j2, k);
  }

  /** A worked header: the first field of a proxy chain, with its padding removed. */
  lemma ForwardedChainGivesFirstHop()
    ensures GetClientIp(" 10.0.0.9 , 10.0.0.1", "10.0.0.2", "192.168.1.5:4431") == "10.0.0.9"
  {
    var f := " 10.0.0.9 , 10.0.0.1";
    assert f[1..9] == "10.0.0.9";
    assert f[..1] == " " && f[9..10] == " " && f[10] == ',';
    assert ',' !in f[..10];
    TrimmedFirstFieldIntro(f, "10.0.0.9", 1, 9, 10);
    TrimmedFirstFieldUnique(f, GetClientIp(f, "10.0.0.2", "192.168.1.5:4431"), "10.0.0.9");
  }

  /** Once X-Forwarded-For is present, X-Real-IP and the remote address are never looked at. */
  lemma ForwardedForDecidesAlone(forwardedFor: string, realIp1: string, remote1: string, realIp2: string, remote2: string)
    requires forwardedFor != ""
    ensures GetClientIp(forwardedFor, realIp1, remote1) == GetClientIp(forwardedFor, realIp2, remote2)
  {
  }

  /** A blank first field gives an empty address: there is no fall-back to the other sources. */
  lemma BlankForwardedFieldGivesEmptyAddress()
    ensures GetClientIp(" ,10.0.0.9", "10.0.0.1", "192.168.1.5:4431") == ""
  {
    assert BeforeFirst(" ,10.0.0.9", ',') == " ";
  }
}
