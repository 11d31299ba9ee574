/**
 * The caching web proxy: parsing an absolute "http://" request URL into host,
 * port and path, and the LRU object cache with its size accounting.
 *
 * The cache is a doubly linked list in the source; here it is the sequence of
 * its entries in list order, head first, and a pointer to an entry is its
 * index in that sequence. Every cache operation runs as if the cache lock
 * were held.
 */
module Proxy {
  import opened CString

  /** Largest total size of the cached objects. */
  const MaxCacheSize: int := 1049000
  /** Largest object that is cached. */
  const MaxObjectSize: int := 102400
  /** The port used when the URL names none. */
  const DefaultPort: int := 80

  datatype Option<T> = None | Some(value: T)

  /* ---------------------------------------------------------------------- */
  /* URL parsing                                                             */

  /** What a well-formed URL names: the server, the path sent to it and its port. */
  datatype Target = Target(host: string, path: string, port: int)

  predicate IsDigit(c: char)
  {
    '0' <= c <= '9'
  }

  predicate AllDigits(s: string)
  {
    forall i :: 0 <= i < |s| ==> IsDigit(s[i])
  }

  /** A character that ends the host name. */
  predicate IsHostEnd(c: char)
  {
    c == ':' || c == '/'
  }

  /** The value atoi gives a run of decimal digits. */
  function DecimalValue(s: string): (n: nat)
    requires AllDigits(s)
    ensures |s| == 0 ==> n == 0
  {
    if |s| == 0 then 0 else 10 * DecimalValue(s[..|s| - 1]) + (s[|s| - 1] as int - '0' as int)
  }

  /** The decimal numeral of n, as sprintf's "%d" writes it. */
  function Decimal(n: nat): (s: string)
    ensures |s| > 0 && AllDigits(s)
  {
    if n < 10 then [('0' as int + n) as char] else Decimal(n / 10) + [('0' as int + n % 10) as char]
  }

  /** Reading back a numeral gives its number. */
  lemma {:induction false} DecimalRoundTrip(n: nat)
    ensures DecimalValue(Decimal(n)) == n
  {
    if n >= 10 {
      var s := Decimal(n);
      assert s[..|s| - 1] == Decimal(n / 10);
      DecimalRoundTrip(n / 10);
    }
  }

  /** The length of the host name at the start of s: up to the first ':' or '/', or all of s. */
  function HostEnd(s: string): (k: nat)
    ensures k <= |s|
    ensures forall i :: 0 <= i < k ==> !IsHostEnd(s[i])
    ensures k < |s| ==> IsHostEnd(s[k])
  {
    if |s| == 0 || IsHostEnd(s[0]) then 0 else 1 + HostEnd(s[1..])
  }

  /** The length of the run of digits at the start of s. */
  function DigitRun(s: string): (k: nat)
    ensures k <= |s| && AllDigits(s[..k])
    ensures k < |s| ==> !IsDigit(s[k])
  {
    if |s| == 0 || !IsDigit(s[0]) then 0 else 1 + DigitRun(s[1..])
  }

  /** HostEnd is the only index with its two properties. */
  lemma {:induction false} HostEndUnique(s: string, k: nat)
    requires k <= |s| && (forall i :: 0 <= i < k ==> !IsHostEnd(s[i])) && (k < |s| ==> IsHostEnd(s[k]))
    ensures HostEnd(s) == k
  {
    if k > 0 {
      HostEndUnique(s[1..], k - 1);
    }
  }

  /** DigitRun is the only index with its two properties. */
  lemma {:induction false} DigitRunUnique(s: string, k: nat)
    requires k <= |s| && (forall i :: 0 <= i < k ==> IsDigit(s[i])) && (k < |s| ==> !IsDigit(s[k]))
    ensures DigitRun(s) == k
  {
    if k > 0 {
      DigitRunUnique(s[1..], k - 1);
    }
  }

  /**
   * What parseURL makes of the URL text: None where it returns -1. The text
   * must start with "http://" and go on past it; the rest is read by ParseRest.
   */
  function Parse(text: string): Option<Target>
  {
    if |text| <= 7 || text[..7] != "http://" then None else ParseRest(text[7..])
  }

  /**
   * The URL after "http://": the host name runs up to the first ':' or '/'
   * and must not be empty; after a ':' come the port digits, which must be
   * followed by the end or by '/'; the path is everything after the host
   * name and port.
   */
  function ParseRest(rest: string): Option<Target>
  {
    var offset := HostEnd(rest);
    if offset == 0 then None
    else if offset == |rest| then Some(Target(rest, "", DefaultPort))
    else if rest[offset] == '/' then Some(Target(rest[..offset], rest[offset..], DefaultPort))
    else PortTail(rest, offset)
  }

  /** ParseRest after a host name that ends in ':' at `offset`: the port digits, then the end or a path. */
  function PortTail(rest: string, offset: nat): Option<Target>
    requires offset < |rest|
  {
    var after := rest[offset + 1..];
    var run := DigitRun(after);
    if run != |after| && after[run] != '/' then None
    else Some(Target(rest[..offset], after[run..], DecimalValue(after[..run])))
  }

  /** A target a URL can name: a non-empty host without ':' or '/', a path that is empty or starts with '/'. */
  predicate Nameable(t: Target)
  {
    |t.host| > 0 && (forall i :: 0 <= i < |t.host| ==> !IsHostEnd(t.host[i])) &&
    (t.path == [] || t.path[0] == '/') && t.port >= 0
  }

  /** Whatever Parse accepts starts with "http://" and names a Nameable target. */
  lemma ParseNameable(text: string)
    requires Parse(text).Some?
    ensures |text| > 7 && text[..7] == "http://" && Nameable(Parse(text).value)
  {
  }

  /** After the scheme, a host name and a path: port 80. */
  lemma ParseRestDefault(host: string, path: string)
    requires Nameable(Target(host, path, DefaultPort))
    ensures ParseRest(host + path) == Some(Target(host, path, DefaultPort))
  {
    var rest := host + path;
    HostEndUnique(rest, |host|);
    if path == [] {
      assert rest == host;
    } else {
      assert rest[..|host|] == host;
      assert rest[|host|..] == path;
    }
  }

  /** After the scheme, a host name, ':', a run of digits and a path: the digits give the port. */
  lemma ParseRestPort(host: string, digits: string, path: string)
    requires Nameable(Target(host, path, 0)) && AllDigits(digits)
    ensures ParseRest(host + ":" + digits + path) == Some(Target(host, path, DecimalValue(digits)))
  {
    PortLayout(host, digits, path);
    PortTailSplit(host + ":" + digits + path, |host|, digits, path);
  }

  /** Where the parts of host + ":" + digits + path lie. */
  lemma PortLayout(host: string, digits: string, path: string)
    requires Nameable(Target(host, path, 0)) && AllDigits(digits)
    ensures var rest := host + ":" + digits + path;
            HostEnd(rest) == |host| && rest[|host|] == ':' &&
            rest[..|host|] == host && rest[|host| + 1..] == digits + path
  {
    var tail := digits + path;
    var rest := host + ([':'] + tail);
    assert host + ":" + digits + path == rest;
    Halves(host, [':'] + tail);
    Halves([':'], tail);
    assert rest[|host|..][1..] == rest[|host| + 1..];
    HostEndUnique(rest, |host|);
  }

  /** PortTail when the text after the ':' is a run of digits and then a path. */
  lemma PortTailSplit(rest: string, offset: nat, digits: string, path: string)
    requires offset < |rest| && rest[offset + 1..] == digits + path
    requires AllDigits(digits) && (path == [] || path[0] == '/')
    ensures PortTail(rest, offset) == Some(Target(rest[..offset], path, DecimalValue(digits)))
  {
    Halves(digits, path);
    DigitRunUnique(digits + path, |digits|);
  }

  /** The two halves of a concatenation. */
  lemma Halves(a: string, b: string)
    ensures (a + b)[..|a|] == a && (a + b)[|a|..] == b
  {
  }

  /** A slice of a slice is a slice. */
  lemma Subslice(s: string, lo: nat, hi: nat, i: nat, j: nat)
    requires lo <= hi <= |s| && i <= j <= hi - lo
    ensures s[lo..hi][i..j] == s[lo + i..lo + j]
  {
    assert forall k :: 0 <= k < j - i ==> s[lo..hi][i..j][k] == s[lo + i..lo + j][k];
  }

  /** A URL without a port: "http://" + host + path parses to port 80. */
  lemma ParseDefaultPort(t: Target)
    requires Nameable(t)
    ensures Parse("http://" + t.host + t.path) == Some(Target(t.host, t.path, DefaultPort))
  {
    var text := "http://" + t.host + t.path;
    assert text[..7] == "http://";
    assert text[7..] == t.host + t.path;
    ParseRestDefault(t.host, t.path);
  }

  /** A URL with a port: "http://" + host + ":" + port + path parses back to the same target. */
  lemma ParseWithPort(t: Target)
    requires Nameable(t)
    ensures Parse("http://" + t.host + ":" + Decimal(t.port) + t.path) == Some(t)
  {
    var text := "http://" + t.host + ":" + Decimal(t.port) + t.path;
    assert text[..7] == "http://";
    assert text[7..] == t.host + ":" + Decimal(t.port) + t.path;
    ParseRestPort(t.host, Decimal(t.port), t.path);
    DecimalRoundTrip(t.port);
  }

  /** `after` is the buffer `before` with s written over its front. */
  predicate CopiedTo(after: seq<char>, before: seq<char>, s: string)
  {
    |s| <= |before| == |after| && after[..|s|] == s && after[|s|..] == before[|s|..]
  }

  /**
   * parseURL: the URL is the C string in `url`; on success the host name and
   * the path are copied to the front of `hostName` and `path` (the rest of
   * those buffers is left as it was) and the port is returned; -1 reports a
   * malformed URL and leaves both buffers alone. When the URL is long enough
   * but does not start with "http://", the NUL written at url[7] to compare
   * the scheme stays there.
   */
  method ParseURL(url: array<char>, hostName: array<char>, path: array<char>) returns (port: int)
    requires '\0' in url[..]
    requires url != hostName && url != path && hostName != path
    requires url.Length <= hostName.Length && url.Length <= path.Length
    modifies url, hostName, path
    ensures var text := old(url[..])[..StrLen(old(url[..]))];
            match Parse(text)
            case None =>
              port == -1 && hostName[..] == old(hostName[..]) && path[..] == old(path[..])
            case Some(t) =>
              port == t.port && CopiedTo(hostName[..], old(hostName[..]), t.host) &&
              CopiedTo(path[..], old(path[..]), t.path)
    ensures var text := old(url[..])[..StrLen(old(url[..]))];
            url[..] == if |text| > 7 && text[..7] != "http://" then old(url[..])[7 := '\0'] else old(url[..])
  {
    ghost var text := url[..][..StrLen(url[..])];
    var n := StrLen(url[..]);
    if n <= 7 {
      return -1;
    }
    var ok := CheckScheme(url);
    if !ok {
      return -1;
    }
    assert text[..7] == url[..7];
    var realLen := n - 7;
    assert text[7..] == url[7..n];
    port := ParseAfterScheme(url, text[7..], hostName, path, realLen);
  }

  /**
   * The scheme test of parseURL: url[7] is set to NUL so that the first
   * seven characters can be compared with "http://", and put back when they
   * match.
   */
  method CheckScheme(url: array<char>) returns (ok: bool)
    requires 7 < url.Length
    modifies url
    ensures ok == (old(url[..7]) == "http://")
    ensures url[..] == if ok then old(url[..]) else old(url[..])[7 := '\0']
  {
    var pos7 := url[7];
    url[7] := '\0';
    if url[..7] != "http://" {
      return false;
    }
    url[7] := pos7;
    return true;
  }

  /** The host-name scan of parseURL over rest, the realLen characters after "http://". */
  method ScanHost(url: array<char>, ghost rest: string, realLen: nat) returns (offset: nat)
    requires 7 + realLen <= url.Length && rest == url[7..7 + realLen]
    ensures offset == HostEnd(rest)
  {
    offset := 0;
    while offset < realLen
      invariant offset <= realLen
      invariant forall i :: 0 <= i < offset ==> !IsHostEnd(rest[i])
    {
      if url[7 + offset] == ':' || url[7 + offset] == '/' {
        break;
      }
      offset := offset + 1;
    }
    HostEndUnique(rest, offset);
  }

  /**
   * The port-digit scan of parseURL over rest, the realLen characters after
   * "http://", starting at `from`; the digits read are collected in portChar.
   */
  method ScanDigits(url: array<char>, ghost rest: string, from: nat, realLen: nat) returns (numberEnd: nat, portChar: string)
    requires from <= realLen && 7 + realLen <= url.Length && rest == url[7..7 + realLen]
    ensures numberEnd == from + DigitRun(rest[from..])
    ensures portChar == rest[from..numberEnd]
  {
    numberEnd := from;
    portChar := [];
    while numberEnd < realLen && '0' <= url[7 + numberEnd] <= '9'
      invariant from <= numberEnd <= realLen
      invariant forall i :: from <= i < numberEnd ==> IsDigit(rest[i])
      invariant portChar == rest[from..numberEnd]
    {
      portChar := portChar + [url[7 + numberEnd]];
      numberEnd := numberEnd + 1;
    }
    DigitRunUnique(rest[from..], numberEnd - from);
  }

  /** dst[..count] := src[from..from + count], one character at a time; the rest of dst is kept. */
  method CopyOut(src: array<char>, from: nat, count: nat, dst: array<char>)
    requires src != dst && from + count <= src.Length && count <= dst.Length
    modifies dst
    ensures CopiedTo(dst[..], old(dst[..]), old(src[from..from + count]))
  {
    for i := 0 to count
      invariant dst[..i] == src[from..from + i]
      invariant dst[i..] == old(dst[i..])
    {
      dst[i] := src[from + i];
    }
  }

  /** parseURL after the scheme test: rest, the realLen characters after "http://", is read as ParseRest reads it. */
  method ParseAfterScheme(url: array<char>, ghost rest: string, hostName: array<char>, path: array<char>, realLen: nat)
    returns (port: int)
    requires url != hostName && url != path && hostName != path
    requires 7 + realLen <= url.Length && url.Length <= hostName.Length && url.Length <= path.Length
    requires rest == url[7..7 + realLen]
    modifies hostName, path
    ensures match ParseRest(rest)
            case None =>
              port == -1 && hostName[..] == old(hostName[..]) && path[..] == old(path[..])
            case Some(t) =>
              port == t.port && CopiedTo(hostName[..], old(hostName[..]), t.host) &&
              CopiedTo(path[..], old(path[..]), t.path)
  {
    var offset := ScanHost(url, rest, realLen);
    if offset == 0 {
      return -1;
    }
    if offset == realLen {
      CopyOut(url, 7, realLen, hostName);
      return DefaultPort;
    } else if url[7 + offset] == '/' {
      CopyHostAndPath(url, rest, hostName, path, realLen, offset, offset);
      return DefaultPort;
    }
    port := PortAndPath(url, rest, hostName, path, realLen, offset);
  }

  /** The third layout of parseURL: the host name is followed by ':' and the port digits. */
  method PortAndPath(url: array<char>, ghost rest: string, hostName: array<char>, path: array<char>, realLen: nat, offset: nat)
    returns (port: int)
    requires url != hostName && url != path && hostName != path
    requires 7 + realLen <= url.Length && url.Length <= hostName.Length && url.Length <= path.Length
    requires rest == url[7..7 + realLen] && offset < realLen
    modifies hostName, path
    ensures match PortTail(rest, offset)
            case None =>
              port == -1 && hostName[..] == old(hostName[..]) && path[..] == old(path[..])
            case Some(t) =>
              port == t.port && CopiedTo(hostName[..], old(hostName[..]), t.host) &&
              CopiedTo(path[..], old(path[..]), t.path)
  {
    var numberEnd, portChar := ScanDigits(url, rest, offset + 1, realLen);
    PortTailAt(rest, offset, numberEnd);
    if numberEnd != realLen && url[7 + numberEnd] != '/' {
      return -1;
    }
    port := DecimalValue(portChar);
    ghost var t := Target(rest[..offset], rest[numberEnd..], port);
    assert PortTail(rest, offset) == Some(t);
    CopyHostAndPath(url, rest, hostName, path, realLen, offset, numberEnd);
  }

  /** PortTail in terms of where the digit run ends. */
  lemma PortTailAt(rest: string, offset: nat, numberEnd: nat)
    requires offset < |rest| && numberEnd == offset + 1 + DigitRun(rest[offset + 1..])
    ensures numberEnd <= |rest| && AllDigits(rest[offset + 1..numberEnd])
    ensures PortTail(rest, offset) ==
              if numberEnd != |rest| && rest[numberEnd] != '/' then None
              else Some(Target(rest[..offset], rest[numberEnd..], DecimalValue(rest[offset + 1..numberEnd])))
  {
    var after := rest[offset + 1..];
    var run := numberEnd - offset - 1;
    assert after[..run] == rest[offset + 1..numberEnd];
    assert after[run..] == rest[numberEnd..];
  }

  /** The two copy loops of parseURL: the host name from the front of rest, the path from pathFrom on. */
  method CopyHostAndPath(url: array<char>, ghost rest: string, hostName: array<char>, path: array<char>,
                         realLen: nat, hostLen: nat, pathFrom: nat)
    requires url != hostName && url != path && hostName != path
    requires 7 + realLen <= url.Length && url.Length <= hostName.Length && url.Length <= path.Length
    requires rest == url[7..7 + realLen] && hostLen <= pathFrom <= realLen
    modifies hostName, path
    ensures CopiedTo(hostName[..], old(hostName[..]), rest[..hostLen])
    ensures CopiedTo(path[..], old(path[..]), rest[pathFrom..])
  {
    Subslice(url[..], 7, 7 + realLen, 0, hostLen);
    Subslice(url[..], 7, 7 + realLen, pathFrom, realLen);
    CopyOut(url, 7, hostLen, hostName);
    CopyOut(url, 7 + pathFrom, realLen - pathFrom, path);
  }

  /* ---------------------------------------------------------------------- */
  /* The object cache                                                        */

  /** A cached response: the request it answers, its size, when it was last used, and its bytes. */
  datatype Entry = Entry(host: string, path: string, port: int, size: int, timeStamp: nat, content: seq<char>)

  /** The sum of the sizes of the entries. */
  function SumSizes(es: seq<Entry>): int
  {
    if |es| == 0 then 0 else es[0].size + SumSizes(es[1..])
  }

  /** The entry answers a request for host, path and port. */
  predicate Matches(e: Entry, host: string, path: string, port: int)
  {
    e.host == host && e.path == path && e.port == port
  }

  /** The victim of deleteLRU: the entry with the smallest timestamp, the first one on ties. */
  function OldestIndex(es: seq<Entry>): (k: nat)
    requires |es| > 0
    ensures k < |es|
    ensures forall j :: 0 <= j < |es| ==> es[k].timeStamp <= es[j].timeStamp
    ensures forall j :: 0 <= j < k ==> es[k].timeStamp < es[j].timeStamp
  {
    if |es| == 1 then 0
    else
      var k := OldestIndex(es[..|es| - 1]);
      if es[|es| - 1].timeStamp < es[k].timeStamp then |es| - 1 else k
  }

  /** OldestIndex is the only index with its two properties. */
  lemma OldestUnique(es: seq<Entry>, k: nat)
    requires k < |es|
    requires forall j :: 0 <= j < |es| ==> es[k].timeStamp <= es[j].timeStamp
    requires forall j :: 0 <= j < k ==> es[k].timeStamp < es[j].timeStamp
    ensures OldestIndex(es) == k
  {
  }

  /** The list with its k-th entry unlinked. */
  function RemoveAt(es: seq<Entry>, k: nat): (r: seq<Entry>)
    requires k < |es|
    ensures |r| == |es| - 1
    ensures forall i :: 0 <= i < k ==> r[i] == es[i]
    ensures forall i :: k <= i < |r| ==> r[i] == es[i + 1]
  {
    es[..k] + es[k + 1..]
  }

  /** Unlinking an entry takes its size off the total. */
  lemma {:induction false} SumRemoveAt(es: seq<Entry>, k: nat)
    requires k < |es|
    ensures SumSizes(RemoveAt(es, k)) == SumSizes(es) - es[k].size
  {
    if k > 0 {
      assert RemoveAt(es, k)[1..] == RemoveAt(es[1..], k - 1);
      SumRemoveAt(es[1..], k - 1);
    } else {
      assert RemoveAt(es, k) == es[1..];
    }
  }

  /** A new timestamp leaves the total size alone. */
  lemma {:induction false} SumStamp(es: seq<Entry>, k: nat, t: nat)
    requires k < |es|
    ensures SumSizes(es[k := es[k].(timeStamp := t)]) == SumSizes(es)
  {
    if k > 0 {
      assert es[k := es[k].(timeStamp := t)][1..] == es[1..][k - 1 := es[k].(timeStamp := t)];
      SumStamp(es[1..], k - 1, t);
    }
  }

  /**
   * The list left by the eviction loop of addToCache: the least recently
   * used entry is unlinked, one at a time, while the total size is over limit.
   */
  function Evict(es: seq<Entry>, limit: int): (r: seq<Entry>)
    ensures forall e :: e in r ==> e in es
    decreases |es|
  {
    if |es| > 0 && SumSizes(es) > limit then Evict(RemoveAt(es, OldestIndex(es)), limit) else es
  }

  /** For a limit that is not negative, what eviction leaves fits in it. */
  lemma {:induction false} EvictFits(es: seq<Entry>, limit: int)
    requires limit >= 0
    ensures SumSizes(Evict(es, limit)) <= limit
    decreases |es|
  {
    if |es| > 0 && SumSizes(es) > limit {
      EvictFits(RemoveAt(es, OldestIndex(es)), limit);
    }
  }

  /** Eviction is least recently used first: every entry it drops is no newer than every entry it keeps. */
  lemma {:induction false} EvictOldestFirst(es: seq<Entry>, limit: int, x: Entry, y: Entry)
    requires x in es && x !in Evict(es, limit) && y in Evict(es, limit)
    ensures x.timeStamp <= y.timeStamp
    decreases |es|
  {
    var k := OldestIndex(es);
    var r := RemoveAt(es, k);
    assert Evict(es, limit) == Evict(r, limit);
    if x in r {
      EvictOldestFirst(r, limit, x, y);
    } else {
      var i :| 0 <= i < |es| && es[i] == x;
      assert i == k;
      var j :| 0 <= j < |r| && r[j] == y;
    }
  }

  /** A cached entry as the cache keeps it: its size is that of its bytes, within bounds, and it is older than tStmp. */
  predicate Stored(e: Entry, tStmp: nat)
  {
    0 <= e.size <= MaxObjectSize && |e.content| == e.size && e.timeStamp < tStmp
  }

  /** Every entry is Stored and no two share a timestamp. */
  predicate Stamped(es: seq<Entry>, tStmp: nat)
  {
    (forall i :: 0 <= i < |es| ==> Stored(es[i], tStmp)) &&
    (forall i, j :: 0 <= i < j < |es| ==> es[i].timeStamp != es[j].timeStamp)
  }

  /** Unlinking an entry keeps the list Stamped and does not raise the total size. */
  lemma StampedRemoveAt(es: seq<Entry>, k: nat, tStmp: nat)
    requires k < |es| && Stamped(es, tStmp)
    ensures Stamped(RemoveAt(es, k), tStmp)
    ensures SumSizes(RemoveAt(es, k)) == SumSizes(es) - es[k].size <= SumSizes(es)
  {
    SumRemoveAt(es, k);
    StampedGap(es, RemoveAt(es, k), k, tStmp);
  }

  /** A list made of es without its k-th entry is Stamped when es is. */
  lemma StampedGap(es: seq<Entry>, r: seq<Entry>, k: nat, tStmp: nat)
    requires k < |es| && Stamped(es, tStmp) && |r| == |es| - 1
    requires forall i :: 0 <= i < k ==> r[i] == es[i]
    requires forall i :: k <= i < |r| ==> r[i] == es[i + 1]
    ensures Stamped(r, tStmp)
  {
    forall i | 0 <= i < |r|
      ensures Stored(r[i], tStmp)
    {
      if i >= k {
        assert r[i] == es[i + 1];
      }
    }
    forall i, j | 0 <= i < j < |r|
      ensures r[i].timeStamp != r[j].timeStamp
    {
      if i >= k {
        assert r[i] == es[i + 1];
      }
      if j >= k {
        assert r[j] == es[j + 1];
      }
    }
  }

  /** An entry stamped with tStmp put at the head keeps the list Stamped under the next clock value. */
  lemma StampedPrepend(e: Entry, es: seq<Entry>, tStmp: nat)
    requires Stamped(es, tStmp) && 0 <= e.size <= MaxObjectSize && |e.content| == e.size && e.timeStamp == tStmp
    ensures Stamped([e] + es, tStmp + 1)
  {
    var r := [e] + es;
    forall i, j | 0 <= i < j < |r|
      ensures r[i].timeStamp != r[j].timeStamp
    {
      assert r[j] == es[j - 1];
      if i > 0 {
        assert r[i] == es[i - 1];
      }
    }
  }

  /**
   * The proxy's object cache: the list of entries from the head on, the
   * total size cacheSize and the clock tStmp that stamps every read and write.
   */
  class ObjectCache {
    var entries: seq<Entry>
    var cacheSize: int
    var tStmp: nat

    /** cacheSize is the total size and within the bound; every entry is Stored; no two share a timestamp. */
    ghost predicate Valid()
      reads this
    {
      cacheSize == SumSizes(entries) && cacheSize <= MaxCacheSize && Stamped(entries, tStmp)
    }

    /** The empty cache, before the first request. */
    constructor ()
      ensures Valid() && entries == [] && cacheSize == 0 && tStmp == 0
    {
      entries := [];
      cacheSize := 0;
      tStmp := 0;
    }

    /** readCache: the first entry from the head that answers host, path and port, if any. */
    method ReadCache(host: string, path: string, port: int) returns (hit: Option<nat>)
      ensures hit.Some? ==> hit.value < |entries| && Matches(entries[hit.value], host, path, port)
      ensures hit.Some? ==> forall j :: 0 <= j < hit.value ==> !Matches(entries[j], host, path, port)
      ensures hit.None? ==> forall j :: 0 <= j < |entries| ==> !Matches(entries[j], host, path, port)
    {
      var i := 0;
      while i < |entries|
        invariant i <= |entries|
        invariant forall j :: 0 <= j < i ==> !Matches(entries[j], host, path, port)
      {
        if entries[i].host == host && entries[i].path == path && entries[i].port == port {
          return Some(i);
        }
        i := i + 1;
      }
      return None;
    }

    /** updateCache: a hit entry is stamped with tStmp, which then moves on; None is ignored. */
    method UpdateCache(hit: Option<nat>)
      requires Valid() && (hit.Some? ==> hit.value < |entries|)
      modifies this
      ensures Valid() && cacheSize == old(cacheSize)
      ensures hit.None? ==> entries == old(entries) && tStmp == old(tStmp)
      ensures hit.Some? ==> entries == old(entries)[hit.value := old(entries)[hit.value].(timeStamp := old(tStmp))]
      ensures hit.Some? ==> tStmp == old(tStmp) + 1
      ensures hit.Some? ==> forall j :: 0 <= j < |entries| && j != hit.value ==> entries[j].timeStamp < entries[hit.value].timeStamp
    {
      if hit.None? {
        return;
      }
      var k := hit.value;
      SumStamp(entries, k, tStmp);
      entries := entries[k := entries[k].(timeStamp := tStmp)];
      tStmp := tStmp + 1;
    }

    /** The victim scan of deleteLRU over a non-empty list. */
    method FindVictim() returns (toDel: nat)
      requires |entries| > 0
      ensures toDel == OldestIndex(entries)
    {
      toDel := 0;
      var iter := 0;
      var tstmp := entries[0].timeStamp;
      while iter < |entries|
        invariant iter <= |entries| && toDel < |entries| && toDel <= iter
        invariant tstmp == entries[toDel].timeStamp
        invariant forall j :: 0 <= j < iter ==> tstmp <= entries[j].timeStamp
        invariant forall j :: 0 <= j < toDel ==> tstmp < entries[j].timeStamp
      {
        if entries[iter].timeStamp < tstmp {
          tstmp := entries[iter].timeStamp;
          toDel := iter;
        }
        iter := iter + 1;
      }
      OldestUnique(entries, toDel);
    }

    /**
     * deleteLRU: the entry OldestIndex picks is unlinked and its size taken
     * off cacheSize; an empty list is left alone.
     */
    method DeleteLRU()
      requires Valid()
      modifies this
      ensures Valid() && tStmp == old(tStmp)
      ensures old(entries) == [] ==> entries == [] && cacheSize == old(cacheSize)
      ensures old(entries) != [] ==>
                entries == RemoveAt(old(entries), OldestIndex(old(entries))) &&
                cacheSize == old(cacheSize) - old(entries)[OldestIndex(old(entries))].size
    {
      if |entries| == 0 {
        return;
      }
      var toDel := FindVictim();
      StampedRemoveAt(entries, toDel, tStmp);
      cacheSize := cacheSize - entries[toDel].size;
      entries := RemoveAt(entries, toDel);
    }

    /** The eviction loop of addToCache: entries go, least recently used first, until readLen more bytes fit. */
    method EvictFor(readLen: int)
      requires Valid() && 0 <= readLen <= MaxObjectSize
      modifies this
      ensures Valid() && tStmp == old(tStmp) && cacheSize <= MaxCacheSize - readLen
      ensures entries == Evict(old(entries), MaxCacheSize - readLen)
    {
      ghost var limit := MaxCacheSize - readLen;
      while cacheSize > MaxCacheSize - readLen
        invariant Valid() && tStmp == old(tStmp)
        invariant Evict(entries, limit) == Evict(old(entries), limit)
        decreases |entries|
      {
        DeleteLRU();
      }
    }

    /**
     * addToCache: a missing response or one over MaxObjectSize is ignored;
     * otherwise least recently used entries are evicted until readLen more
     * bytes fit, and the new entry, stamped with tStmp, goes to the head.
     */
    method AddToCache(host: string, path: string, port: int, response: Option<seq<char>>, readLen: int)
      requires Valid()
      requires response.Some? && readLen <= MaxObjectSize ==> 0 <= readLen <= |response.value|
      modifies this
      ensures Valid()
      ensures response.None? || readLen > MaxObjectSize ==>
                entries == old(entries) && cacheSize == old(cacheSize) && tStmp == old(tStmp)
      ensures response.Some? && readLen <= MaxObjectSize ==>
                entries == [Entry(host, path, port, readLen, old(tStmp), response.value[..readLen])] +
                           Evict(old(entries), MaxCacheSize - readLen) &&
                tStmp == old(tStmp) + 1
    {
      if response.None? || readLen > MaxObjectSize {
        return;
      }
      var content := [];
      for i := 0 to readLen
        invariant content == response.value[..i]
      {
        content := content + [response.value[i]];
      }
      EvictFor(readLen);
      var e := Entry(host, path, port, readLen, tStmp, content);
      StampedPrepend(e, entries, tStmp);
      entries := [e] + entries;
      tStmp := tStmp + 1;
      cacheSize := cacheSize + readLen;
    }
  }
}
