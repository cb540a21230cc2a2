/**
 * Process-name syntax: the legality check on names and the two splitters
 * that take `name@host:port` and `name#node` strings apart.
 */
module Names {
  import opened Wrappers
  import opened Text

  /** Characters that `check_name` refuses inside a process name. */
  const IllegalNameChars: set<char> := {'@', '#', ':'}

  /** `check_name`: true iff the name shares no character with the illegal set. */
  function CheckName(name: string): (ok: bool)
    ensures ok <==> forall i :: 0 <= i < |name| ==> name[i] !in IllegalNameChars
  {
    '@' !in name && '#' !in name && ':' !in name
  }

  /** The triple `(processname, hostname, port)`; `None` is Python's `None`. */
  datatype HostSplit = HostSplit(name: Option<string>, host: Option<string>, port: Option<int>)

  const NoHostSplit := HostSplit(None, None, None)

  /**
   * `name_split_host`: split on `@`, then split the suffix on `:`. More
   * than one `@`, more than one `:` in the suffix, or a port that does not
   * parse as an integer all give `(None, None, None)`.
   */
  function NameSplitHost(s: string): (r: HostSplit)
    ensures Count(s, '@') >= 2 ==> r == NoHostSplit
    ensures r.name.None? ==> r == NoHostSplit
    ensures r.name.Some? ==> '@' !in r.name.value
    ensures r.host.Some? ==> r.name.Some? && '@' !in r.host.value && ':' !in r.host.value
    ensures r.port.Some? ==> r.host.Some?
    ensures r.name.Some? && r.host.None? ==> s == r.name.value
    ensures r.host.Some? && r.port.None? ==> s == r.name.value + "@" + r.host.value
    ensures r.port.Some? ==> exists p :: ':' !in p && ParseInt(p) == r.port &&
                                         s == r.name.value + "@" + r.host.value + ":" + p
  {
    var comps := Split(s, '@');
    if |comps| == 2 then
      JoinTwo(comps, '@');
      var suffix := Split(comps[1], ':');
      if |suffix| > 2 then NoHostSplit
      else if |suffix| == 2 then
        JoinTwo(suffix, ':');
        assert s == comps[0] + "@" + suffix[0] + ":" + suffix[1];
        match ParseInt(suffix[1])
        case Some(port) => HostSplit(Some(comps[0]), Some(suffix[0]), Some(port))
        case None => NoHostSplit
      else HostSplit(Some(comps[0]), Some(suffix[0]), None)
    else if |comps| == 1 then HostSplit(Some(comps[0]), None, None)
    else NoHostSplit
  }

  /** A name with no `@` is all name. */
  lemma NameSplitHostBare(n: string)
    requires '@' !in n
    ensures NameSplitHost(n) == HostSplit(Some(n), None, None)
  {
    SplitNoSeparator(n, '@');
  }

  /** `name@host` gives back the name and the host, and no port. */
  lemma NameSplitHostNoPort(n: string, h: string)
    requires '@' !in n && '@' !in h && ':' !in h
    ensures NameSplitHost(n + "@" + h) == HostSplit(Some(n), Some(h), None)
  {
    SplitJoin([n, h], '@');
    SplitNoSeparator(h, ':');
  }

  /**
   * `name@host:p` with any suffix `p` that `int()` accepts (leading zeros
   * and a sign included) gives back the name, the host and the parsed port.
   */
  lemma NameSplitHostParsedPort(n: string, h: string, p: string)
    requires '@' !in n && '@' !in h && ':' !in h && '@' !in p && ':' !in p && ParseInt(p).Some?
    ensures NameSplitHost(n + "@" + h + ":" + p) == HostSplit(Some(n), Some(h), ParseInt(p))
  {
    assert '@' !in h + ":" + p;
    assert n + "@" + h + ":" + p == Join([n, h + ":" + p], '@');
    SplitJoin([n, h + ":" + p], '@');
    assert h + ":" + p == Join([h, p], ':');
    SplitJoin([h, p], ':');
  }

  /** `name@host:port` with the port written by `str` gives back all three. */
  lemma NameSplitHostWithPort(n: string, h: string, port: int)
    requires '@' !in n && '@' !in h && ':' !in h
    ensures NameSplitHost(n + "@" + h + ":" + IntToString(port)) == HostSplit(Some(n), Some(h), Some(port))
  {
    var p := IntToString(port);
    IntToStringChars(port);
    assert '@' !in h + ":" + p;
    assert n + "@" + h + ":" + p == Join([n, h + ":" + p], '@');
    SplitJoin([n, h + ":" + p], '@');
    assert h + ":" + p == Join([h, p], ':');
    SplitJoin([h, p], ':');
    ParseIntToString(port);
  }

  /**
   * The error paths after a single `@`: a suffix with a second `:`, or a
   * port that does not parse as an integer, gives `(None, None, None)`.
   */
  lemma NameSplitHostBadSuffix(n: string, h: string, p: string)
    requires '@' !in n && '@' !in h && '@' !in p
    ensures ':' in p ==> NameSplitHost(n + "@" + h + ":" + p) == NoHostSplit
    ensures ':' !in h && ':' !in p && ParseInt(p).None? ==> NameSplitHost(n + "@" + h + ":" + p) == NoHostSplit
  {
    var suffix := h + ":" + p;
    assert '@' !in suffix;
    assert n + "@" + h + ":" + p == Join([n, suffix], '@');
    SplitJoin([n, suffix], '@');
    if ':' in p {
      CountAppend(h + ":", p, ':');
      CountAppend(h, ":", ':');
      CountPresent(p, ':');
      assert Count(":", ':') == 1;
      assert |Split(suffix, ':')| > 2;
    } else if ':' !in h {
      assert suffix == Join([h, p], ':');
      SplitJoin([h, p], ':');
    }
  }

  lemma IntToStringChars(n: int)
    ensures '@' !in IntToString(n) && ':' !in IntToString(n) && '#' !in IntToString(n)
  {
    var s := IntToString(n);
    var digits := if n < 0 then ToBase(-n, 10) else ToBase(n, 10);
    ToBaseDigits(if n < 0 then -n else n, 10);
    assert s == if n < 0 then "-" + digits else digits;
    assert forall i :: 0 <= i < |s| ==> s[i] == '-' || IsDigitChar(s[i]);
  }

  /** The pair `(processname, nodename)`; `None` is Python's `None`. */
  datatype NodeSplit = NodeSplit(name: Option<string>, node: Option<string>)

  /**
   * `name_split_node`: split on `#`. Without a `#` the node name is the
   * process name itself; more than one `#` gives `(None, None)`. The
   * source asserts that the string holds no `@`.
   */
  function NameSplitNode(s: string): (r: NodeSplit)
    requires '@' !in s
    ensures r.name.Some? <==> Count(s, '#') <= 1
    ensures r.name.Some? <==> r.node.Some?
    ensures r.name.Some? ==> '#' !in r.name.value && '#' !in r.node.value
    ensures Count(s, '#') == 0 ==> r == NodeSplit(Some(s), Some(s))
    ensures Count(s, '#') == 1 ==> s == r.name.value + "#" + r.node.value
  {
    var comps := Split(s, '#');
    if |comps| == 2 then
      JoinTwo(comps, '#');
      NodeSplit(Some(comps[0]), Some(comps[1]))
    else if |comps| == 1 then NodeSplit(Some(comps[0]), Some(comps[0]))
    else NodeSplit(None, None)
  }

  /** `name#node` with separator-free parts splits back into the parts. */
  lemma NameSplitNodeRoundTrip(n: string, node: string)
    requires '#' !in n && '#' !in node && '@' !in n && '@' !in node
    ensures NameSplitNode(n + "#" + node) == NodeSplit(Some(n), Some(node))
  {
    assert n + "#" + node == Join([n, node], '#');
    SplitJoin([n, node], '#');
  }
}
