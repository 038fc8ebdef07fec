/**
  The socket endpoints of the topology: one URL per datanode (named by 1-based
  position), the service node's endpoint and the rangeget proxy's URL, all of
  them `http+unix://` URLs rooted at the encoded socket directory; and the
  comma-joined datanode list passed to every process.
 */
module Topology {
  import opened Text
  import opened StringOrder
  import opened SocketDir

  const Scheme := "http+unix://"

  /** `http+unix://{socket_dir}dn_{k}.sock` */
  function DnUrl(socketDir: string, k: nat): string
  {
    Scheme + socketDir + "dn_" + NatToString(k) + ".sock"
  }

  /** `http+unix://{socket_dir}sn_1.sock`: the only endpoint handed to callers. */
  function EndpointUrl(socketDir: string): string
  {
    Scheme + socketDir + "sn_1.sock"
  }

  /** `http+unix://{socket_dir}rangeget.sock` */
  function RangegetUrl(socketDir: string): string
  {
    Scheme + socketDir + "rangeget.sock"
  }

  /** The datanode URLs in creation order: datanodes 1 to n. */
  function DnUrlsInOrder(socketDir: string, n: nat): (urls: seq<string>)
    ensures |urls| == n
  {
    seq(n, i requires 0 <= i < n => DnUrl(socketDir, i + 1))
  }

  /** `_dn_urls` after `sort()`: the same URLs, in string order. */
  function SortedDnUrls(socketDir: string, dnCount: int): (urls: seq<string>)
    ensures |urls| == RangeLen(dnCount)
    ensures Sorted(urls)
    ensures multiset(urls) == multiset(DnUrlsInOrder(socketDir, RangeLen(dnCount)))
  {
    SortStrings(DnUrlsInOrder(socketDir, RangeLen(dnCount)))
  }

  /** The `for i in range(dn_count)` loop of `HsdsApp.__init__` that lists the datanode URLs. */
  method BuildDnUrls(socketDir: string, dnCount: int) returns (urls: seq<string>)
    ensures urls == DnUrlsInOrder(socketDir, RangeLen(dnCount))
  {
    urls := [];
    for i := 0 to RangeLen(dnCount)
      invariant urls == DnUrlsInOrder(socketDir, i)
    {
      urls := urls + [DnUrl(socketDir, i + 1)];
    }
  }

  /** Two datanodes never share a URL. */
  lemma DnUrlInjective(socketDir: string, a: nat, b: nat)
    ensures DnUrl(socketDir, a) == DnUrl(socketDir, b) <==> a == b
  {
    if DnUrl(socketDir, a) == DnUrl(socketDir, b) {
      var p := Scheme + socketDir + "dn_";
      var x, y := NatToString(a), NatToString(b);
      assert |p + x + ".sock"| == |p + y + ".sock"|;
      assert x == (p + x + ".sock")[|p|..|p| + |x|];
      assert y == (p + y + ".sock")[|p|..|p| + |y|];
      NatToStringInjective(a, b);
    }
  }

  /** Every sorted URL is the URL of one of the datanodes 1 to dn_count. */
  lemma SortedDnUrlsAreDnUrls(socketDir: string, dnCount: int, i: nat)
    requires i < RangeLen(dnCount)
    ensures exists k :: 1 <= k <= RangeLen(dnCount) && SortedDnUrls(socketDir, dnCount)[i] == DnUrl(socketDir, k)
  {
    var urls := SortedDnUrls(socketDir, dnCount);
    var made := DnUrlsInOrder(socketDir, RangeLen(dnCount));
    assert urls[i] in multiset(made);
    var m :| 0 <= m < |made| && made[m] == urls[i];
    assert urls[i] == DnUrl(socketDir, m + 1);
  }

  /** A datanode URL starts with the scheme, ends with `.sock`, and has a comma only if the socket directory does. */
  lemma DnUrlShape(socketDir: string, k: nat)
    ensures StartsWith(DnUrl(socketDir, k), Scheme) && EndsWith(DnUrl(socketDir, k), ".sock")
    ensures ',' !in socketDir ==> ',' !in DnUrl(socketDir, k)
  {
    var u := DnUrl(socketDir, k);
    assert u[..|Scheme|] == Scheme;
    assert u[|u| - 5..] == ".sock";
    if ',' !in socketDir {
      var d := NatToString(k);
      assert forall c :: c in d ==> IsDigit(c);
    }
  }

  /** The `dn_urls_arg` loop drops empty entries ahead of the first non-empty one; the rest are joined with `,`. */
  function DropLeadingEmpty(xs: seq<string>): (r: seq<string>)
    ensures r == [] || r[0] != ""
  {
    if xs == [] then [] else if xs[0] == "" then DropLeadingEmpty(xs[1..]) else xs
  }

  lemma {:induction false} DropLeadingEmptySnoc(xs: seq<string>, x: string)
    ensures DropLeadingEmpty(xs + [x]) ==
      if DropLeadingEmpty(xs) != [] then DropLeadingEmpty(xs) + [x]
      else if x == "" then [] else [x]
  {
    if xs != [] {
      assert (xs + [x])[1..] == xs[1..] + [x];
      DropLeadingEmptySnoc(xs[1..], x);
    }
  }

  /**
    The loop of `HsdsApp.run` that builds `dn_urls_arg`: a comma goes before an
    entry only when something was already written.
   */
  method JoinUrls(urls: seq<string>) returns (arg: string)
    ensures arg == Join(DropLeadingEmpty(urls), ',')
  {
    arg := "";
    for i := 0 to |urls|
      invariant arg == Join(DropLeadingEmpty(urls[..i]), ',')
    {
      assert urls[..i + 1] == urls[..i] + [urls[i]];
      DropLeadingEmptySnoc(urls[..i], urls[i]);
      ghost var done := DropLeadingEmpty(urls[..i]);
      if done != [] {
        JoinSnoc(done, urls[i], ',');
        JoinEnds(done, ',');
      }
      if arg != "" {
        arg := arg + ",";
      }
      arg := arg + urls[i];
    }
    assert urls[..|urls|] == urls;
  }

  /** The sorted list opens and closes with a datanode URL. */
  lemma SortedDnUrlsEnds(socketDir: string, dnCount: int)
    requires dnCount > 0
    ensures var urls := SortedDnUrls(socketDir, dnCount);
      StartsWith(urls[0], Scheme) && EndsWith(urls[|urls| - 1], ".sock")
  {
    var urls := SortedDnUrls(socketDir, dnCount);
    SortedDnUrlsAreDnUrls(socketDir, dnCount, 0);
    var k0 :| 1 <= k0 <= RangeLen(dnCount) && urls[0] == DnUrl(socketDir, k0);
    DnUrlShape(socketDir, k0);
    SortedDnUrlsAreDnUrls(socketDir, dnCount, |urls| - 1);
    var k1 :| 1 <= k1 <= RangeLen(dnCount) && urls[|urls| - 1] == DnUrl(socketDir, k1);
    DnUrlShape(socketDir, k1);
  }

  /** With a comma-free socket directory, no datanode URL holds a comma. */
  lemma SortedDnUrlsCommaFree(socketDir: string, dnCount: int)
    requires ',' !in socketDir
    ensures var urls := SortedDnUrls(socketDir, dnCount);
      forall i :: 0 <= i < |urls| ==> ',' !in urls[i]
  {
    var urls := SortedDnUrls(socketDir, dnCount);
    forall i | 0 <= i < |urls| ensures ',' !in urls[i] {
      SortedDnUrlsAreDnUrls(socketDir, dnCount, i);
      var k :| 1 <= k <= RangeLen(dnCount) && urls[i] == DnUrl(socketDir, k);
      DnUrlShape(socketDir, k);
    }
  }

  /**
    `dn_urls_arg` is the sorted datanode URLs joined by `,`: empty when there is no
    datanode, otherwise starting with the scheme and ending with `.sock` (so no
    stray comma at either end), and split back on `,` it gives the sorted list
    whenever the socket directory has no comma.
   */
  lemma DnUrlsArg(socketDir: string, dnCount: int)
    ensures var urls := SortedDnUrls(socketDir, dnCount);
      Join(DropLeadingEmpty(urls), ',') == Join(urls, ',')
    ensures var arg := Join(SortedDnUrls(socketDir, dnCount), ',');
      (arg == "" <==> dnCount <= 0) &&
      (dnCount > 0 ==> StartsWith(arg, Scheme) && EndsWith(arg, ".sock"))
    ensures var urls := SortedDnUrls(socketDir, dnCount);
      ',' !in socketDir && dnCount > 0 ==> Split(Join(urls, ','), ',') == urls
  {
    var urls := SortedDnUrls(socketDir, dnCount);
    if dnCount > 0 {
      SortedDnUrlsEnds(socketDir, dnCount);
      JoinEnds(urls, ',');
      var arg := Join(urls, ',');
      StartsWithTransitive(arg, urls[0], Scheme);
      EndsWithTransitive(arg, urls[|urls| - 1], ".sock");
      if ',' !in socketDir {
        SortedDnUrlsCommaFree(socketDir, dnCount);
        SplitJoin(urls, ',');
      }
    }
  }

  /** The service node, the rangeget proxy and the datanodes listen on pairwise different sockets. */
  lemma EndpointsDistinct(socketDir: string, k: nat)
    ensures EndpointUrl(socketDir) != RangegetUrl(socketDir)
    ensures EndpointUrl(socketDir) != DnUrl(socketDir, k)
    ensures RangegetUrl(socketDir) != DnUrl(socketDir, k)
  {
    var at := |Scheme| + |socketDir|;
    assert EndpointUrl(socketDir)[at] == 's';
    assert RangegetUrl(socketDir)[at] == 'r';
    assert DnUrl(socketDir, k)[at] == 'd';
  }

  /** No string occurs twice. */
  predicate Distinct(s: seq<string>)
  {
    forall a, b :: 0 <= a < b < |s| ==> s[a] != s[b]
  }

  /** Distinctness is a property of the multiset: every string occurs at most once. */
  lemma {:induction false} DistinctIffSingletons(s: seq<string>)
    ensures Distinct(s) <==> forall x :: multiset(s)[x] <= 1
  {
    if s != [] {
      var t := s[1..];
      DistinctIffSingletons(t);
      assert s == [s[0]] + t;
      assert multiset(s) == multiset{s[0]} + multiset(t);
      if Distinct(s) {
        forall a, b | 0 <= a < b < |t| ensures t[a] != t[b] {
          assert t[a] == s[a + 1] && t[b] == s[b + 1];
        }
      }
      if forall x :: multiset(s)[x] <= 1 {
        forall x ensures multiset(t)[x] <= 1 {
          assert multiset(s)[x] >= multiset(t)[x];
        }
        assert multiset(s)[s[0]] == 1 + multiset(t)[s[0]];
        forall a, b | 0 <= a < b < |s| ensures s[a] != s[b] {
          if a == 0 {
            assert s[b] == t[b - 1];
          } else {
            assert s[a] == t[a - 1] && s[b] == t[b - 1];
          }
        }
      }
    }
  }

  /** The sorted datanode URLs are pairwise different: each datanode has its own socket. */
  lemma SortedDnUrlsDistinct(socketDir: string, dnCount: int)
    ensures Distinct(SortedDnUrls(socketDir, dnCount))
  {
    var made := DnUrlsInOrder(socketDir, RangeLen(dnCount));
    forall a, b | 0 <= a < b < |made| ensures made[a] != made[b] {
      DnUrlInjective(socketDir, a + 1, b + 1);
    }
    DistinctIffSingletons(made);
    DistinctIffSingletons(SortedDnUrls(socketDir, dnCount));
  }
}
