/**
 * Catalogue entries: the raw index record, its extended form with the
 * address of its reference page, and the keyword search over a list of them.
 */
module Commands {
  import opened Text

  /** Where the per-command reference pages are published. */
  const DetailUrlBase := "https://unpkg.com/linux-command/command"

  /** One index record: name `n`, one-line description `d`, catalogue path `p`. */
  datatype RawCommand = RawCommand(n: string, d: string, p: string)

  /** An index record with the address of its reference page. */
  datatype Command = Command(name: string, description: string, path: string, detailUrl: string)

  /** The address of the reference page of command `name`; the name is used unescaped. */
  function DetailUrl(name: string): (url: string)
    ensures StartsWith(url, DetailUrlBase + "/")
    ensures |url| == |DetailUrlBase| + |name| + 4
    ensures url[|DetailUrlBase| + 1..|url| - 3] == name
    ensures url[|url| - 3..] == ".md"
  {
    var url := DetailUrlBase + "/" + name + ".md";
    assert url[..|DetailUrlBase + "/"|] == DetailUrlBase + "/";
    url
  }

  /** Distinct names have distinct reference addresses. */
  lemma DetailUrlInjective(a: string, b: string)
    requires DetailUrl(a) == DetailUrl(b)
    ensures a == b
  {
    var u := DetailUrl(a);
    assert a == u[|DetailUrlBase| + 1..|u| - 3];
  }

  function TransformCommand(raw: RawCommand): (c: Command)
    ensures c.name == raw.n && c.description == raw.d && c.path == raw.p
    ensures c.detailUrl == DetailUrl(c.name)
  {
    Command(raw.n, raw.d, raw.p, DetailUrl(raw.n))
  }

  /** The index record an extended entry was made from. */
  function Raw(c: Command): (raw: RawCommand)
    ensures raw.n == c.name && raw.d == c.description && raw.p == c.path
  {
    RawCommand(c.name, c.description, c.path)
  }

  /** An extended entry is well-formed when its address is the one its name determines. */
  predicate WellFormed(c: Command) {
    c.detailUrl == DetailUrl(c.name)
  }

  /** Extending loses nothing: the record can be recovered. */
  lemma TransformRoundTrip(raw: RawCommand)
    ensures Raw(TransformCommand(raw)) == raw
  {
  }

  /** Every well-formed extended entry is the extension of its own record. */
  lemma TransformOnto(c: Command)
    requires WellFormed(c)
    ensures TransformCommand(Raw(c)) == c
  {
  }

  /** `Object.values(data).map(transformCommand)`: extension of every record, order kept. */
  function TransformAll(raws: seq<RawCommand>): (cs: seq<Command>)
    ensures |cs| == |raws|
    ensures forall i :: 0 <= i < |raws| ==> Raw(cs[i]) == raws[i] && WellFormed(cs[i])
  {
    seq(|raws|, i requires 0 <= i < |raws| => TransformCommand(raws[i]))
  }

  // ---------------------------------------------------------------------------
  // Search.

  /** The search test, against an already lower-cased keyword. */
  predicate Matches(c: Command, lowerKeyword: string) {
    Contains(ToLower(c.name), lowerKeyword) || Contains(ToLower(c.description), lowerKeyword)
  }

  /** `commands.filter(...)`: the entries that pass, in their original order. */
  function Filter(commands: seq<Command>, lowerKeyword: string): (r: seq<Command>)
    ensures |r| <= |commands|
    ensures forall c :: c in r <==> c in commands && Matches(c, lowerKeyword)
    decreases |commands|
  {
    if |commands| == 0 then []
    else
      var rest := Filter(commands[1..], lowerKeyword);
      assert forall c :: c in commands <==> c == commands[0] || c in commands[1..] by {
        assert commands == [commands[0]] + commands[1..];
      }
      if Matches(commands[0], lowerKeyword) then [commands[0]] + rest else rest
  }

  /** Case-insensitive search on name or description; an empty keyword keeps everything. */
  function SearchCommands(commands: seq<Command>, keyword: string): (r: seq<Command>)
    ensures |r| <= |commands|
    ensures forall c :: c in r <==>
              c in commands
              && (Contains(ToLower(c.name), ToLower(keyword)) || Contains(ToLower(c.description), ToLower(keyword)))
  {
    Filter(commands, ToLower(keyword))
  }

  /** Filtering a concatenation filters each part: the relative order of hits is kept. */
  lemma {:induction false} FilterAppend(a: seq<Command>, b: seq<Command>, k: string)
    ensures Filter(a + b, k) == Filter(a, k) + Filter(b, k)
    decreases |a|
  {
    if |a| == 0 {
      assert a + b == b;
    } else {
      assert (a + b)[1..] == a[1..] + b;
      assert (a + b)[0] == a[0];
      FilterAppend(a[1..], b, k);
    }
  }

  /** One entry is kept exactly when it matches. */
  lemma SearchSingle(c: Command, keyword: string)
    ensures SearchCommands([c], keyword) == if Matches(c, ToLower(keyword)) then [c] else []
  {
    assert [c][1..] == [];
  }

  /**
   * The search result is the list of matching entries with multiplicity and
   * order: searching a concatenation concatenates the searches.
   */
  lemma SearchAppend(a: seq<Command>, b: seq<Command>, keyword: string)
    ensures SearchCommands(a + b, keyword) == SearchCommands(a, keyword) + SearchCommands(b, keyword)
  {
    FilterAppend(a, b, ToLower(keyword));
  }

  /** Every text contains the empty string. */
  lemma ContainsEmpty(s: string)
    ensures Contains(s, "")
  {
    assert OccursAt(s, "", 0);
  }

  /** An empty keyword keeps every entry. */
  lemma {:induction false} SearchEmptyKeyword(commands: seq<Command>)
    ensures SearchCommands(commands, "") == commands
    decreases |commands|
  {
    if |commands| > 0 {
      ContainsEmpty(ToLower(commands[0].name));
      SearchEmptyKeyword(commands[1..]);
      assert commands == [commands[0]] + commands[1..];
    }
  }

  /** Keywords differing only in ASCII letter case give the same result. */
  lemma SearchIgnoresCase(commands: seq<Command>, keyword: string)
    ensures SearchCommands(commands, ToLower(keyword)) == SearchCommands(commands, keyword)
  {
    ToLowerIdempotent(keyword);
  }

  /** Searching again with the same keyword changes nothing. */
  lemma {:induction false} SearchIdempotent(commands: seq<Command>, keyword: string)
    ensures SearchCommands(SearchCommands(commands, keyword), keyword) == SearchCommands(commands, keyword)
    decreases |commands|
  {
    if |commands| > 0 {
      var k := ToLower(keyword);
      SearchIdempotent(commands[1..], keyword);
      if Matches(commands[0], k) {
        var r := SearchCommands(commands, keyword);
        assert r == [commands[0]] + SearchCommands(commands[1..], keyword);
        assert r[0] == commands[0] && r[1..] == SearchCommands(commands[1..], keyword);
      }
    }
  }
}
