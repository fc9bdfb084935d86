/** Matching hosts against trusted suffixes on label boundaries (providers/_host_match.py). */
module HostMatch {
  import opened Texts

  /** The host is the suffix, or ends with a dot and the suffix. */
  predicate MatchesOne(host: string, suffix: string)
  {
    host == suffix || EndsWith(host, "." + suffix)
  }

  predicate MatchesSuffix(host: string, suffixes: seq<string>)
  {
    exists suffix :: suffix in suffixes && MatchesOne(host, suffix)
  }

  /** Both hosts of a configuration must match; an absent host is the empty text. */
  predicate OAuthHostsMatch(authorizeHost: string, tokenHost: string, suffixes: seq<string>)
  {
    MatchesSuffix(authorizeHost, suffixes) && MatchesSuffix(tokenHost, suffixes)
  }

  function Labels(host: string): seq<string>
  {
    Split(host, '.')
  }

  predicate IsLabelSuffix(tail: seq<string>, labels: seq<string>)
  {
    |tail| <= |labels| && labels[|labels| - |tail|..] == tail
  }

  lemma MatchEndsInLabels(host: string, suffix: string)
    requires MatchesOne(host, suffix)
    ensures IsLabelSuffix(Labels(suffix), Labels(host))
  {
    if host != suffix {
      EndsWithConcat(host, "." + suffix);
      var front :| host == front + ("." + suffix);
      assert host == front + ['.'] + suffix;
      SplitConcat(front, '.', suffix);
    }
  }

  lemma LabelsBefore(tail: seq<string>, labels: seq<string>) returns (front: seq<string>)
    requires IsLabelSuffix(tail, labels)
    ensures labels == front + tail
  {
    front := labels[..|labels| - |tail|];
  }

  lemma SubdomainMatches(front: string, suffix: string)
    ensures MatchesOne(front + ['.'] + suffix, suffix)
  {
    var host := front + ['.'] + suffix;
    assert host[|front|..] == "." + suffix;
  }

  lemma LabelsEndInMatch(host: string, suffix: string, front: seq<string>)
    requires Labels(host) == front + Labels(suffix)
    ensures MatchesOne(host, suffix)
  {
    JoinSplit(host, '.');
    JoinSplit(suffix, '.');
    if front == [] {
      assert Labels(host) == Labels(suffix);
    } else {
      JoinAppend(front, Labels(suffix), '.');
      SubdomainMatches(Join(front, '.'), suffix);
    }
  }

  /** For every two texts, the string test is the test on whole labels. */
  lemma MatchIsLabelSuffix(host: string, suffix: string)
    ensures MatchesOne(host, suffix) <==> IsLabelSuffix(Labels(suffix), Labels(host))
  {
    if MatchesOne(host, suffix) {
      MatchEndsInLabels(host, suffix);
    }
    if IsLabelSuffix(Labels(suffix), Labels(host)) {
      var front := LabelsBefore(Labels(suffix), Labels(host));
      LabelsEndInMatch(host, suffix, front);
    }
  }

  /** Of two suffixes that match one host, one matches the other. */
  lemma SuffixesOfOneHost(host: string, a: string, b: string)
    requires MatchesOne(host, a) && MatchesOne(host, b)
    ensures MatchesOne(a, b) || MatchesOne(b, a)
  {
    MatchIsLabelSuffix(host, a);
    MatchIsLabelSuffix(host, b);
    MatchIsLabelSuffix(a, b);
    MatchIsLabelSuffix(b, a);
    var labels := Labels(host);
    var la, lb := labels[|labels| - |Labels(a)|..], labels[|labels| - |Labels(b)|..];
    if |la| <= |lb| {
      assert lb[|lb| - |la|..] == la;
    } else {
      assert la[|la| - |lb|..] == lb;
    }
  }

  /** The host is under one of the suffixes, label by label. */
  ghost predicate IsUnder(host: string, suffixes: seq<string>)
  {
    exists suffix :: suffix in suffixes && IsLabelSuffix(Labels(suffix), Labels(host))
  }

  lemma MatchesSuffixExactly(host: string, suffixes: seq<string>)
    ensures MatchesSuffix(host, suffixes) <==> IsUnder(host, suffixes)
  {
    forall suffix ensures MatchesOne(host, suffix) <==> IsLabelSuffix(Labels(suffix), Labels(host)) {
      MatchIsLabelSuffix(host, suffix);
    }
  }

  /** Both hosts have to be under some suffix of the table, not necessarily the same one. */
  lemma HostsMatchExactly(authorizeHost: string, tokenHost: string, suffixes: seq<string>)
    ensures OAuthHostsMatch(authorizeHost, tokenHost, suffixes)
            <==> IsUnder(authorizeHost, suffixes) && IsUnder(tokenHost, suffixes)
  {
    MatchesSuffixExactly(authorizeHost, suffixes);
    MatchesSuffixExactly(tokenHost, suffixes);
  }
}
