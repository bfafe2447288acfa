/**
 Host names (`isValidHostName`, Networking/src/IpAddress.cpp): one scan over the text against the rule for its
 labels.
 */
module HostNames {
  import opened StringUtil

  predicate HostChar(c: char) {
    'a' <= c <= 'z' || 'A' <= c <= 'Z' || '0' <= c <= '9' || c == '-' || c == '_'
  }

  predicate ValidLabel(l: string) {
    1 <= |l| <= 63 && l[0] != '-' && l[|l| - 1] != '-' && forall i | 0 <= i < |l| :: HostChar(l[i])
  }

  predicate AllValid(labels: seq<string>) {
    forall l | l in labels :: ValidLabel(l)
  }

  predicate ValidHostName(host: string) {
    1 <= |host| <= 253 && AllValid(Split(host, '.'))
  }

  /** The part of a label that has been scanned. */
  predicate Begun(part: string) {
    |part| <= 63 && (part != "" ==> part[0] != '-') && forall i | 0 <= i < |part| :: HostChar(part[i])
  }

  lemma LabelEnds(s: string, n: nat)
    requires n < |s| && s[n] == '.' && Begun(s[..n])
    ensures AllValid(Split(s, '.')) <==> n > 0 && s[n - 1] != '-' && AllValid(Split(s[n + 1..], '.'))
  {
    hide Split;
    assert forall i | 0 <= i < n :: s[i] == s[..n][i] != '.';
    assert s == s[..n] + ['.'] + s[n + 1..];
    FindSkips(s[..n], '.', s[n + 1..]);
    SplitHere(s, n);
    var labels := Split(s, '.');
    assert AllValid(labels) <==> ValidLabel(s[..n]) && AllValid(Split(s[n + 1..], '.')) by {
      assert labels[0] in labels && forall l | l in labels[1..] :: l in labels;
      assert labels == [labels[0]] + labels[1..];
    }
  }

  lemma SplitHere(s: string, n: nat)
    requires n < |s| && n == Find(s, '.')
    ensures Split(s, '.')[0] == s[..n] && Split(s, '.')[1..] == Split(s[n + 1..], '.')
  {
  }

  /** The label does not end here, and what comes next makes it invalid. */
  lemma LabelIsBad(s: string, n: nat)
    requires n < |s| && s[n] != '.' && Begun(s[..n])
    requires !HostChar(s[n]) || (n == 0 && s[n] == '-') || n == 63
    ensures !AllValid(Split(s, '.'))
  {
    assert forall i | 0 <= i < n :: s[i] == s[..n][i] != '.';
    var m := Find(s, '.');
    var part := s[..m];
    assert m > n && part[n] == s[n] && part[0] == s[0];
    assert Split(s, '.')[0] == part;
    assert part in Split(s, '.');
  }

  lemma LastLabel(s: string)
    requires Begun(s)
    ensures AllValid(Split(s, '.')) <==> s != "" && s[|s| - 1] != '-'
  {
    assert '.' !in s;
    FindNone(s, '.');
    assert Split(s, '.') == [s];
    assert s in Split(s, '.');
  }

  lemma {:induction false} EmptyLabelAtEnd(s: string)
    requires s != "" && s[|s| - 1] == '.'
    ensures "" in Split(s, '.')
    decreases |s|
  {
    var n := Find(s, '.');
    assert n < |s|;
    if n + 1 < |s| {
      EmptyLabelAtEnd(s[n + 1..]);
    } else {
      assert s[n + 1..] == "" && Split("", '.') == [""];
      assert Split(s, '.')[1] == "";
    }
  }

  lemma EmptyLabelAtFront(s: string)
    requires s != "" && s[0] == '.'
    ensures "" in Split(s, '.')
  {
    assert Split(s, '.')[0] == "";
  }

  /** `isValidHostName`: a host name is labels of at most 63 permitted characters that neither begin nor end in '-'. */
  method IsValidHostName(host: string) returns (valid: bool)
    ensures valid <==> ValidHostName(host)
  {
    hide ValidLabel, HostChar, Split;
    if host == "" || |host| > 253 {
      return false;
    }
    if host[0] == '.' || host[|host| - 1] == '.' {
      EmptyIsInvalid();
      if host[0] == '.' {
        EmptyLabelAtFront(host);
      } else {
        EmptyLabelAtEnd(host);
      }
      return false;
    }
    var labelLength := 0;
    for i := 0 to |host|
      invariant 0 <= labelLength <= i && Begun(host[i - labelLength..i])
      invariant AllValid(Split(host, '.')) <==> AllValid(Split(host[i - labelLength..], '.'))
    {
      var c := host[i];
      ghost var rest := host[i - labelLength..];
      assert rest[..labelLength] == host[i - labelLength..i] && rest[labelLength] == c;
      if c == '.' {
        LabelEnds(rest, labelLength);
        assert rest[labelLength + 1..] == host[i + 1..];
        if labelLength == 0 {
          return false;
        }
        if host[i - 1] == '-' {
          return false;
        }
        labelLength := 0;
        continue;
      }
      if !HostChar(c) || (labelLength == 0 && c == '-') || labelLength == 63 {
        LabelIsBad(rest, labelLength);
        return false;
      }
      assert host[i - labelLength..i + 1] == host[i - labelLength..i] + [c];
      labelLength := labelLength + 1;
    }
    LastLabel(host[|host| - labelLength..]);
    return labelLength > 0 && host[|host| - 1] != '-';
  }

  lemma EmptyIsInvalid()
    ensures !ValidLabel("")
  {
  }
}
