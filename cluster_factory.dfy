/** `JedisClusterFactory`: turns the comma-separated `host:port` setting into
    the set of seed endpoints and builds the one cluster handle every facade
    call shares. */
module ClusterFactory {
  import opened Wrappers
  import opened JavaLang

  const Separator: char := ','

  /** `HostAndPort`: equal when host and port are equal. */
  datatype Endpoint = Endpoint(host: string, port: Int32)

  /** The exceptions `afterPropertiesSet` lets escape. */
  datatype BootError =
    | BlankAddresses          // IllegalArgumentException: the setting is blank
    | BadPort(token: string)  // NumberFormatException from Integer.valueOf
    | NoValidEndpoint         // IllegalArgumentException: nothing survived

  /** Length of the leading run of characters other than `sep`. */
  function RunLength(s: string, sep: char): (n: nat)
    ensures n <= |s|
    ensures forall i :: 0 <= i < n ==> s[i] != sep
    ensures n < |s| ==> s[n] == sep
  {
    if s == [] || s[0] == sep then 0 else 1 + RunLength(s[1..], sep)
  }

  /** `StringUtils.split(s, sep)`: the maximal runs of characters other than
      `sep`, in order; empty tokens never appear and nothing is trimmed. */
  function Split(s: string, sep: char): (r: seq<string>)
    ensures forall t :: t in r ==> |t| >= 1 && sep !in t
    decreases |s|
  {
    if s == [] then []
    else if s[0] == sep then Split(s[1..], sep)
    else
      var n := RunLength(s, sep);
      [s[..n]] + Split(s[n..], sep)
  }

  function Concat(ts: seq<string>): string {
    if ts == [] then "" else ts[0] + Concat(ts[1..])
  }

  /** `s` with every `sep` removed. */
  function Without(s: string, sep: char): string {
    if s == [] then "" else (if s[0] == sep then "" else [s[0]]) + Without(s[1..], sep)
  }

  lemma {:induction false} WithoutAppend(a: string, b: string, sep: char)
    ensures Without(a + b, sep) == Without(a, sep) + Without(b, sep)
  {
    if a == [] {
      assert a + b == b;
    } else {
      assert (a + b)[0] == a[0] && (a + b)[1..] == a[1..] + b;
      WithoutAppend(a[1..], b, sep);
    }
  }

  lemma {:induction false} WithoutNoSeparator(s: string, sep: char)
    requires sep !in s
    ensures Without(s, sep) == s
  {
    if s != [] {
      WithoutNoSeparator(s[1..], sep);
    }
  }

  /** Splitting loses nothing but the separators. */
  lemma {:induction false} SplitKeepsText(s: string, sep: char)
    ensures Concat(Split(s, sep)) == Without(s, sep)
    decreases |s|
  {
    if s != [] {
      if s[0] == sep {
        SplitKeepsText(s[1..], sep);
      } else {
        var n := RunLength(s, sep);
        SplitKeepsText(s[n..], sep);
        assert s == s[..n] + s[n..];
        WithoutAppend(s[..n], s[n..], sep);
        WithoutNoSeparator(s[..n], sep);
        assert Split(s, sep)[1..] == Split(s[n..], sep);
      }
    }
  }

  /** A separator cuts the input into two independent halves. */
  lemma {:induction false} SplitAtSeparator(a: string, b: string, sep: char)
    ensures Split(a + [sep] + b, sep) == Split(a, sep) + Split(b, sep)
    decreases |a|
  {
    var s := a + [sep] + b;
    if a == [] {
      assert s[1..] == b;
    } else if a[0] == sep {
      assert s[1..] == a[1..] + [sep] + b;
      SplitAtSeparator(a[1..], b, sep);
    } else {
      var n := RunLength(a, sep);
      RunLengthPrefix(a, [sep] + b, sep);
      assert s == a + ([sep] + b);
      assert s[..n] == a[..n];
      assert s[n..] == a[n..] + [sep] + b;
      SplitAtSeparator(a[n..], b, sep);
    }
  }

  lemma {:induction false} RunLengthPrefix(a: string, b: string, sep: char)
    requires |b| >= 1 && b[0] == sep
    ensures RunLength(a + b, sep) == RunLength(a, sep)
  {
    if a != [] {
      assert (a + b)[0] == a[0];
      if a[0] != sep {
        assert (a + b)[1..] == a[1..] + b;
        RunLengthPrefix(a[1..], b, sep);
      }
    } else {
      assert a + b == b;
    }
  }

  /** A non-empty text without separators is one token. */
  lemma SplitSingle(s: string, sep: char)
    requires |s| >= 1 && sep !in s
    ensures Split(s, sep) == [s]
  {
    RunLengthAll(s, sep);
    assert s[..|s|] == s;
  }

  lemma {:induction false} RunLengthAll(s: string, sep: char)
    requires sep !in s
    ensures RunLength(s, sep) == |s|
  {
    if s != [] {
      RunLengthAll(s[1..], sep);
    }
  }

  // ---------------------------------------------------------------------
  // The endpoint pattern ^.+[:]\d{1,5}\s*$ under Matcher.matches()

  /** What `.` does not match. */
  predicate IsLineTerminator(c: char) {
    c == '\n' || c == '\r' || c == '\U{85}' || c == '\U{2028}' || c == '\U{2029}'
  }

  /** `\s` without the Unicode flag. */
  predicate IsRegexSpace(c: char) {
    c == ' ' || c == '\t' || c == '\n' || c == '\U{B}' || c == '\U{C}' || c == '\r'
  }

  /** A whole-input match whose `:` is at `i` and whose digits are `s[i+1..j]`. */
  ghost predicate MatchesAt(s: string, i: int, j: int) {
    1 <= i && i + 2 <= j <= i + 6 && j <= |s|
    && (forall k :: 0 <= k < i ==> !IsLineTerminator(s[k]))
    && s[i] == ':'
    && (forall k :: i < k < j ==> IsDigit(s[k]))
    && (forall k :: j <= k < |s| ==> IsRegexSpace(s[k]))
  }

  /** The language of the pattern. */
  ghost predicate InPatternLanguage(s: string) {
    exists i, j :: MatchesAt(s, i, j)
  }

  /** Length of the longest suffix of `s` whose characters satisfy `p`. */
  function TrailingRun(s: string, p: char -> bool): (n: nat)
    ensures n <= |s|
    ensures forall k :: |s| - n <= k < |s| ==> p(s[k])
    ensures n < |s| ==> !p(s[|s| - n - 1])
  {
    if s == [] || !p(s[|s| - 1]) then 0 else 1 + TrailingRun(s[..|s| - 1], p)
  }

  /** The suffix run is pinned down by where it stops. */
  lemma TrailingRunIs(s: string, p: char -> bool, j: nat)
    requires 1 <= j <= |s| && !p(s[j - 1])
    requires forall k :: j <= k < |s| ==> p(s[k])
    ensures TrailingRun(s, p) == |s| - j
  {
  }

  /** The check the matcher makes: strip the trailing `\s` run, then the
      trailing digit run must hold 1 to 5 digits preceded by `:`, and that
      colon must have at least one character before it, none a line
      terminator. */
  predicate MatchesEndpointPattern(s: string) {
    var j := |s| - TrailingRun(s, IsRegexSpace);
    var d := TrailingRun(s[..j], IsDigit);
    var i := j - d - 1;
    1 <= d <= 5 && i >= 1 && s[i] == ':'
    && forall k :: 0 <= k < i ==> !IsLineTerminator(s[k])
  }

  /** Every string the check accepts is in the pattern's language. */
  lemma MatchesEndpointPatternSound(s: string)
    requires MatchesEndpointPattern(s)
    ensures InPatternLanguage(s)
  {
    var j := |s| - TrailingRun(s, IsRegexSpace);
    var d := TrailingRun(s[..j], IsDigit);
    var i := j - d - 1;
    forall k | i < k < j ensures IsDigit(s[k]) {
      assert s[..j][k] == s[k];
    }
    assert MatchesAt(s, i, j);
  }

  /** Every witness of the pattern is the one the check computes. */
  lemma MatchesEndpointPatternComplete(s: string, i: int, j: int)
    requires MatchesAt(s, i, j)
    ensures MatchesEndpointPattern(s)
  {
    assert !IsRegexSpace(s[j - 1]);
    TrailingRunIs(s, IsRegexSpace, j);
    assert s[..j][i] == ':';
    TrailingRunIs(s[..j], IsDigit, i + 1);
  }

  /** The check accepts exactly the strings the pattern matches. */
  lemma MatchesEndpointPatternCorrect(s: string)
    ensures MatchesEndpointPattern(s) <==> InPatternLanguage(s)
  {
    if MatchesEndpointPattern(s) {
      MatchesEndpointPatternSound(s);
    }
    if InPatternLanguage(s) {
      var i, j :| MatchesAt(s, i, j);
      MatchesEndpointPatternComplete(s, i, j);
    }
  }

  // ---------------------------------------------------------------------
  // One accepted token: item.split(":") then new HostAndPort(items[0], Integer.valueOf(items[1]))

  /** The host is the text before the first `:`; the port is the integer
      value of the text between the first and the second `:`. */
  function ParseEndpoint(token: string): (r: Result<Endpoint, BootError>)
    requires ':' in token
    ensures r.Failure? ==> r.error == BadPort(token)
    ensures r.Success? ==> ':' !in r.value.host && |r.value.host| < |token|
                           && token[..|r.value.host|] == r.value.host && token[|r.value.host|] == ':'
  {
    var i := RunLength(token, ':');
    var rest := token[i + 1..];
    var portText := rest[..RunLength(rest, ':')];
    match ParseInt(portText)
    case None => Failure(BadPort(token))
    case Some(port) => Success(Endpoint(token[..i], port))
  }

  /** What the loop has collected after visiting `tokens` left to right, or
      the exception that stopped it: a token the pattern rejects is logged and
      skipped; an accepted token whose port does not parse throws. */
  function Collect(tokens: seq<string>): (r: Result<set<Endpoint>, BootError>)
  {
    if tokens == [] then Success({})
    else
      match Collect(tokens[..|tokens| - 1])
      case Failure(e) => Failure(e)
      case Success(acc) =>
        var t := tokens[|tokens| - 1];
        if !MatchesEndpointPattern(t) then Success(acc)
        else
          match ParseEndpoint(t)
          case Failure(e) => Failure(e)
          case Success(ep) => Success(acc + {ep})
  }

  /** The outcome `afterPropertiesSet` computes before handing the endpoints
      to the driver. */
  function Bootstrap(hostAndPorts: JString): (r: Result<set<Endpoint>, BootError>)
    ensures IsBlank(hostAndPorts) ==> r == Failure(BlankAddresses)
    ensures r.Success? ==> r.value != {}
  {
    if IsBlank(hostAndPorts) then Failure(BlankAddresses)
    else
      match Collect(Split(hostAndPorts.value, Separator))
      case Failure(e) => Failure(e)
      case Success(nodes) => if nodes == {} then Failure(NoValidEndpoint) else Success(nodes)
  }

  /** Once the loop has thrown, later tokens change nothing. */
  lemma {:induction false} CollectFailureSticks(tokens: seq<string>, k: nat)
    requires k <= |tokens| && Collect(tokens[..k]).Failure?
    ensures Collect(tokens) == Collect(tokens[..k])
    decreases |tokens| - k
  {
    if k < |tokens| {
      assert tokens[..k + 1][..k] == tokens[..k];
      CollectFailureSticks(tokens, k + 1);
    } else {
      assert tokens[..k] == tokens;
    }
  }

  /** Every collected endpoint comes from an accepted token, and every
      accepted token contributes its endpoint. */
  lemma {:induction false} CollectExact(tokens: seq<string>)
    requires Collect(tokens).Success?
    ensures forall t :: t in tokens && MatchesEndpointPattern(t) ==>
              ParseEndpoint(t).Success? && ParseEndpoint(t).value in Collect(tokens).value
    ensures forall e :: e in Collect(tokens).value ==>
              exists t :: t in tokens && MatchesEndpointPattern(t) && ParseEndpoint(t) == Success(e)
  {
    if tokens != [] {
      var init := tokens[..|tokens| - 1];
      var t := tokens[|tokens| - 1];
      assert tokens == init + [t];
      CollectExact(init);
    }
  }

  /** An accepted token whose port does not parse. */
  predicate IsBadToken(t: string) {
    MatchesEndpointPattern(t) && ':' in t && ParseEndpoint(t).Failure?
  }

  /** The loop throws exactly when some accepted token has a port that does
      not parse. */
  lemma {:induction false} CollectFailsOnBadToken(tokens: seq<string>)
    ensures Collect(tokens).Failure? <==> exists k :: 0 <= k < |tokens| && IsBadToken(tokens[k])
  {
    if tokens != [] {
      var n := |tokens| - 1;
      var init := tokens[..n];
      CollectFailsOnBadToken(init);
      assert forall k :: 0 <= k < n ==> init[k] == tokens[k];
      if Collect(tokens).Failure? && Collect(init).Success? {
        assert IsBadToken(tokens[n]);
      }
    }
  }

  /** When it throws, it throws for the first such token, `k`. */
  lemma {:induction false} CollectFirstBadToken(tokens: seq<string>) returns (k: nat)
    requires Collect(tokens).Failure?
    ensures k < |tokens| && IsBadToken(tokens[k]) && Collect(tokens) == Failure(BadPort(tokens[k]))
    ensures forall m :: 0 <= m < k ==> !IsBadToken(tokens[m])
  {
    var n := |tokens| - 1;
    var init := tokens[..n];
    if Collect(init).Failure? {
      k := CollectFirstBadToken(init);
      assert tokens[k] == init[k];
      forall m | 0 <= m < k ensures !IsBadToken(tokens[m]) {
        assert tokens[m] == init[m];
      }
    } else {
      CollectFailsOnBadToken(init);
      k := n;
      forall m | 0 <= m < k ensures !IsBadToken(tokens[m]) {
        assert tokens[m] == init[m];
      }
    }
  }

  /** Both together: the loop throws exactly when some accepted token has a
      port that does not parse, and then for the first such token. */
  lemma CollectFailsAtFirstBadPort(tokens: seq<string>)
    ensures Collect(tokens).Failure? <==> exists k :: 0 <= k < |tokens| && IsBadToken(tokens[k])
    ensures Collect(tokens).Failure? ==>
              exists k :: 0 <= k < |tokens| && IsBadToken(tokens[k]) && Collect(tokens) == Failure(BadPort(tokens[k]))
                && forall m :: 0 <= m < k ==> !IsBadToken(tokens[m])
  {
    CollectFailsOnBadToken(tokens);
    if Collect(tokens).Failure? {
      var k := CollectFirstBadToken(tokens);
    }
  }

  /** The host is everything before the first `:` and the port text runs to
      the second `:` or the end. */
  lemma ParseEndpointShape(host: string, port: string, tail: string)
    requires ':' !in host && ':' !in port && (tail == [] || tail[0] == ':')
    ensures ParseInt(port).None? ==> ParseEndpoint(host + ":" + port + tail) == Failure(BadPort(host + ":" + port + tail))
    ensures ParseInt(port).Some? ==> ParseEndpoint(host + ":" + port + tail) == Success(Endpoint(host, ParseInt(port).value))
  {
    var token := host + ":" + port + tail;
    assert token == host + (":" + port + tail);
    RunLengthPrefix(host, ":" + port + tail, ':');
    RunLengthAll(host, ':');
    assert token[..|host|] == host;
    var rest := token[|host| + 1..];
    assert rest == port + tail;
    if tail == [] {
      assert rest == port;
      RunLengthAll(port, ':');
    } else {
      RunLengthPrefix(port, tail, ':');
      RunLengthAll(port, ':');
    }
    assert rest[..|port|] == port;
  }

  /** A port followed by a second `:` section: the extra section is ignored. */
  lemma TokenWithExtraSection()
    ensures MatchesEndpointPattern("h:1:2") && ParseEndpoint("h:1:2") == Success(Endpoint("h", 1))
  {
    var t := "h:1:2";
    assert MatchesAt(t, 3, 5);
    MatchesEndpointPatternComplete(t, 3, 5);
    assert t == "h" + ":" + "1" + ":2";
    assert ParseInt("1") == Some(1) by {
      assert DigitsValue("1") == 1 by { assert "1"[..0] == ""; }
    }
    ParseEndpointShape("h", "1", ":2");
  }

  /** Trailing blanks pass the pattern but not `Integer.valueOf`. */
  lemma TokenWithTrailingBlank()
    ensures MatchesEndpointPattern("h:6379 ") && ParseEndpoint("h:6379 ") == Failure(BadPort("h:6379 "))
  {
    TrailingBlankMatches();
    TrailingBlankBadPort();
  }

  lemma TrailingBlankMatches()
    ensures MatchesEndpointPattern("h:6379 ")
  {
    MatchesEndpointPatternComplete("h:6379 ", 1, 6);
  }

  lemma TrailingBlankBadPort()
    ensures ParseEndpoint("h:6379 ") == Failure(BadPort("h:6379 "))
  {
    assert !IsDigit(' ');
    assert "h:6379 " == "h" + ":" + "6379 " + "";
    ParseEndpointShape("h", "6379 ", "");
  }

  /** A colon inside the host part passes the pattern, but the text after the
      first `:` is not a number, so the whole setting is rejected. */
  lemma TokenWithColonInHost()
    ensures MatchesEndpointPattern("a:b:6379") && ParseEndpoint("a:b:6379") == Failure(BadPort("a:b:6379"))
  {
    ColonInHostMatches();
    ColonInHostBadPort();
  }

  lemma ColonInHostMatches()
    ensures MatchesEndpointPattern("a:b:6379")
  {
    MatchesEndpointPatternComplete("a:b:6379", 3, 8);
  }

  lemma ColonInHostBadPort()
    ensures ParseEndpoint("a:b:6379") == Failure(BadPort("a:b:6379"))
  {
    assert !IsDigit('b');
    assert "a:b:6379" == "a" + ":" + "b" + ":6379";
    ParseEndpointShape("a", "b", ":6379");
  }

  /** Six digits are one too many for the pattern. */
  lemma TokenWithLongPort()
    ensures !MatchesEndpointPattern("h:123456")
  {
    var t := "h:123456";
    MatchesEndpointPatternCorrect(t);
  }

  /** The loop over a single token. */
  lemma CollectOne(t: string)
    ensures !MatchesEndpointPattern(t) ==> Collect([t]) == Success({})
    ensures MatchesEndpointPattern(t) && ParseEndpoint(t).Failure? ==> Collect([t]) == Failure(ParseEndpoint(t).error)
    ensures MatchesEndpointPattern(t) && ParseEndpoint(t).Success? ==> Collect([t]) == Success({ParseEndpoint(t).value})
  {
    assert [t][..0] == [];
    assert Collect([]) == Success({});
    if MatchesEndpointPattern(t) && ParseEndpoint(t).Success? {
      assert {} + {ParseEndpoint(t).value} == {ParseEndpoint(t).value};
    }
  }

  /** A setting without commas is one token. */
  lemma BootstrapOneToken(s: string)
    requires |s| >= 1 && Separator !in s && !IsWhitespace(s[0])
    ensures Collect([s]).Failure? ==> Bootstrap(Some(s)) == Collect([s])
    ensures Collect([s]) == Success({}) ==> Bootstrap(Some(s)) == Failure(NoValidEndpoint)
    ensures Collect([s]).Success? && Collect([s]).value != {} ==> Bootstrap(Some(s)) == Collect([s])
  {
    assert !IsBlank(Some(s));
    SplitSingle(s, Separator);
  }

  /** A setting with one good entry. */
  lemma BootstrapSingle()
    ensures Bootstrap(Some("h:1:2")) == Success({Endpoint("h", 1)})
  {
    TokenWithExtraSection();
    CollectOne("h:1:2");
    BootstrapOneToken("h:1:2");
  }

  /** A single entry that passes the pattern but has no integer port makes
      the whole bootstrap throw for it. */
  lemma BootstrapBadToken(t: string)
    requires |t| >= 1 && Separator !in t && !IsWhitespace(t[0]) && ':' in t
    requires MatchesEndpointPattern(t) && ParseEndpoint(t).Failure?
    ensures Bootstrap(Some(t)) == Failure(BadPort(t))
  {
    CollectOne(t);
    BootstrapOneToken(t);
  }

  /** Trailing blanks pass the pattern but break the port. */
  lemma BootstrapTrailingBlank()
    ensures Bootstrap(Some("h:6379 ")) == Failure(BadPort("h:6379 "))
  {
    TokenWithTrailingBlank();
    SingleTokenShape("h:6379 ");
    BootstrapBadToken("h:6379 ");
  }

  /** So does a colon inside the host. */
  lemma BootstrapColonInHost()
    ensures Bootstrap(Some("a:b:6379")) == Failure(BadPort("a:b:6379"))
  {
    TokenWithColonInHost();
    SingleTokenShape("a:b:6379");
    BootstrapBadToken("a:b:6379");
  }

  /** The example settings are one token each. */
  lemma SingleTokenShape(t: string)
    requires t == "h:6379 " || t == "a:b:6379"
    ensures |t| >= 1 && Separator !in t && !IsWhitespace(t[0]) && ':' in t
  {
    assert t[1] == ':';
    if t == "h:6379 " {
      assert t == ['h', ':', '6', '3', '7', '9', ' '];
    } else {
      assert t == ['a', ':', 'b', ':', '6', '3', '7', '9'];
    }
  }

  /** Visiting the same token twice adds nothing. */
  lemma CollectTwice(t: string)
    ensures Collect([t, t]) == Collect([t])
  {
    var ts := [t, t];
    assert ts[..1] == [t];
    CollectOne(t);
  }

  /** Repeating an accepted entry yields the same single seed. */
  lemma BootstrapDuplicate(t: string)
    requires |t| >= 1 && Separator !in t && !IsWhitespace(t[0])
    requires MatchesEndpointPattern(t) && ParseEndpoint(t).Success?
    ensures Bootstrap(Some(t + [Separator] + t)) == Success({ParseEndpoint(t).value})
  {
    var s := t + [Separator] + t;
    assert Split(s, Separator) == [t, t] by {
      SplitAtSeparator(t, t, Separator);
      SplitSingle(t, Separator);
    }
    CollectTwice(t);
    CollectOne(t);
    assert s[0] == t[0];
    BootstrapOfTokens(s, [t, t]);
  }

  /** A non-blank setting goes through the loop over its tokens. */
  lemma BootstrapOfTokens(s: string, tokens: seq<string>)
    requires !IsBlank(Some(s)) && Split(s, Separator) == tokens
    ensures Collect(tokens).Failure? ==> Bootstrap(Some(s)) == Collect(tokens)
    ensures Collect(tokens).Success? && Collect(tokens).value != {} ==> Bootstrap(Some(s)) == Collect(tokens)
  {
  }

  /** Nothing usable: every token was skipped, or there was nothing at all. */
  lemma BootstrapNothingValid()
    ensures Bootstrap(Some("h:123456")) == Failure(NoValidEndpoint)
    ensures Bootstrap(Some(" ")) == Failure(BlankAddresses)
  {
    TokenWithLongPort();
    CollectOne("h:123456");
    BootstrapOneToken("h:123456");
    assert Some(" ").value[0] == ' ';
  }

  /** One turn of the loop in `afterPropertiesSet`, from the `i` tokens
      already visited to `i + 1`. */
  lemma CollectStep(tokens: seq<string>, i: nat, acc: set<Endpoint>)
    requires i < |tokens| && Collect(tokens[..i]) == Success(acc)
    ensures MatchesEndpointPattern(tokens[i]) ==> ':' in tokens[i]
    ensures !MatchesEndpointPattern(tokens[i]) ==> Collect(tokens[..i + 1]) == Success(acc)
    ensures MatchesEndpointPattern(tokens[i]) && ParseEndpoint(tokens[i]).Failure? ==>
              Collect(tokens[..i + 1]) == Failure(BadPort(tokens[i]))
    ensures MatchesEndpointPattern(tokens[i]) && ParseEndpoint(tokens[i]).Success? ==>
              Collect(tokens[..i + 1]) == Success(acc + {ParseEndpoint(tokens[i]).value})
  {
    assert tokens[..i + 1][..i] == tokens[..i];
  }

  // ---------------------------------------------------------------------
  // The factory bean

  /** The object the driver builds from the seed endpoints and the settings;
      connecting is the driver's business. */
  datatype ClusterHandle = ClusterHandle(nodes: set<Endpoint>, timeout: Option<Int32>, maxAttempts: Option<Int32>)

  class JedisClusterFactory {
    var hostAndPorts: JString
    var timeout: Option<Int32>
    var maxAttempts: Option<Int32>
    var jedisCluster: Option<ClusterHandle>

    constructor (hostAndPorts: JString, timeout: Option<Int32>, maxAttempts: Option<Int32>)
      ensures this.hostAndPorts == hostAndPorts && this.timeout == timeout && this.maxAttempts == maxAttempts
      ensures jedisCluster == None
    {
      this.hostAndPorts := hostAndPorts;
      this.timeout := timeout;
      this.maxAttempts := maxAttempts;
      jedisCluster := None;
    }

    /** `afterPropertiesSet`: `None` when it returns normally, otherwise the
        exception it throws.  Only the handle changes, and only on success. */
    method AfterPropertiesSet() returns (thrown: Option<BootError>)
      modifies this`jedisCluster
      ensures Bootstrap(hostAndPorts).Failure? ==>
                thrown == Some(Bootstrap(hostAndPorts).error) && jedisCluster == old(jedisCluster)
      ensures Bootstrap(hostAndPorts).Success? ==>
                thrown == None && jedisCluster == Some(ClusterHandle(Bootstrap(hostAndPorts).value, timeout, maxAttempts))
    {
      if IsBlank(hostAndPorts) {
        return Some(BlankAddresses);
      }
      var tokens := Split(hostAndPorts.value, Separator);
      var jedisClusterNode: set<Endpoint> := {};
      var i := 0;
      while i < |tokens|
        invariant 0 <= i <= |tokens|
        invariant Collect(tokens[..i]) == Success(jedisClusterNode)
        invariant jedisCluster == old(jedisCluster)
      {
        var item := tokens[i];
        CollectStep(tokens, i, jedisClusterNode);
        if MatchesEndpointPattern(item) {
          var parsed := ParseEndpoint(item);
          if parsed.Failure? {
            CollectFailureSticks(tokens, i + 1);
            return Some(parsed.error);
          }
          jedisClusterNode := jedisClusterNode + {parsed.value};
        }
        i := i + 1;
      }
      assert tokens[..|tokens|] == tokens;
      if jedisClusterNode == {} {
        return Some(NoValidEndpoint);
      }
      jedisCluster := Some(ClusterHandle(jedisClusterNode, timeout, maxAttempts));
      return None;
    }

    /** `getObject`: the stored handle itself, never a new one. */
    method GetObject() returns (h: Option<ClusterHandle>)
      ensures h == jedisCluster
    {
      h := jedisCluster;
    }

    /** `isSingleton`. */
    function IsSingleton(): (r: bool)
      ensures r
    {
      true
    }
  }
}
