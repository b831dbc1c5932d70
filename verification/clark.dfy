/** Clark notation: the `{namespaceURI}localName` form in which the library
    names every element and attribute. `Service::parseClarkNotation` and the
    older `Util::parseClarkNotation` share the same regular expression,
    `^{([^}]*)}(.*)$`, and are both modelled by `ParseClarkNotation`. */
module Clark {
  import opened Wrappers

  /** A namespace URI and a local name. */
  datatype QName = QName(ns: string, local: string)

  /** The compact text form `{ns}local`. */
  function Format(q: QName): string {
    "{" + q.ns + "}" + q.local
  }

  /** The pairs the regular expression can give back: the namespace stops at
      the first `}`, and `.` never matches a line feed. */
  predicate Parsable(q: QName) {
    '}' !in q.ns && '\n' !in q.local
  }

  /** Position of the first `c` in `s`. */
  function FirstIndex(s: string, c: char): (r: Option<nat>)
    ensures r.Some? ==> r.value < |s| && s[r.value] == c && c !in s[..r.value]
    ensures r.None? ==> c !in s
  {
    if s == [] then None
    else if s[0] == c then Some(0)
    else
      match FirstIndex(s[1..], c)
      case None => None
      case Some(j) =>
        assert s[..j + 1] == [s[0]] + s[1..][..j];
        Some(j + 1)
  }

  /** The first occurrence is the one with no earlier occurrence. */
  lemma {:induction false} FirstIndexAt(s: string, c: char, k: nat)
    requires k < |s| && s[k] == c && c !in s[..k]
    ensures FirstIndex(s, c) == Some(k)
  {
    if k > 0 {
      assert s[0] in s[..k];
      assert s[1..][..k - 1] == s[1..k];
      assert c !in s[1..k] by { assert forall i :: 1 <= i < k ==> s[i] == s[..k][i]; }
      FirstIndexAt(s[1..], c, k - 1);
    }
  }

  function NotClark(s: string): Error {
    InvalidArgument("'" + s + "' is not a valid clark-notation formatted string")
  }

  /** `parseClarkNotation($str)`: the match of `^{([^}]*)}(.*)$`. Without the
      D modifier, PCRE's `$` also matches just before a final line feed, so
      one trailing "\n" is accepted and left out of the local name; any other
      line feed after the `}` makes the match fail. */
  function ParseClarkNotation(s: string): (r: Result<QName>)
    ensures r.Ok? ==> Parsable(r.value)
    ensures r.Ok? ==> s == Format(r.value) || s == Format(r.value) + "\n"
    ensures r.Err? ==> r.error == NotClark(s)
  {
    if |s| == 0 || s[0] != '{' then Err(NotClark(s))
    else
      match FirstIndex(s[1..], '}')
      case None => Err(NotClark(s))
      case Some(j) =>
        var ns, rest := s[1..j + 1], s[j + 2..];
        assert s == "{" + ns + "}" + rest;
        if '\n' !in rest then Ok(QName(ns, rest))
        else if rest[|rest| - 1] == '\n' && '\n' !in rest[..|rest| - 1] then
          assert rest == rest[..|rest| - 1] + "\n";
          Ok(QName(ns, rest[..|rest| - 1]))
        else Err(NotClark(s))
  }

  /** A string `{ns}rest` with no `}` in `ns`: the first `}` after the
      opening brace closes `ns`, and `rest` follows it. */
  lemma SplitAtBrace(ns: string, rest: string)
    requires '}' !in ns
    ensures var s := "{" + ns + "}" + rest;
      FirstIndex(s[1..], '}') == Some(|ns|) && s[1..|ns| + 1] == ns && s[|ns| + 2..] == rest
  {
    var s := "{" + ns + "}" + rest;
    assert s[1..] == ns + "}" + rest;
    assert (ns + "}" + rest)[..|ns|] == ns;
    FirstIndexAt(s[1..], '}', |ns|);
    assert s == ("{" + ns + "}") + rest;
  }

  /** Completeness, and with it the exact failure set: every string of the
      form `{ns}local` (optionally followed by one line feed) with a parsable
      pair is accepted, and yields exactly that pair. */
  lemma ParseClarkNotationComplete(q: QName, s: string)
    requires Parsable(q)
    requires s == Format(q) || s == Format(q) + "\n"
    ensures ParseClarkNotation(s) == Ok(q)
  {
    var tail := if s == Format(q) then "" else "\n";
    var rest := q.local + tail;
    assert s == "{" + q.ns + "}" + rest;
    SplitAtBrace(q.ns, rest);
    if tail == "" {
      assert rest == q.local;
    } else {
      assert rest[..|rest| - 1] == q.local;
      assert '\n' in rest by { assert rest[|rest| - 1] == '\n'; }
    }
  }

  /** Round trip: formatting a parsable pair and parsing it back gives the
      pair, `{}local` included (the empty namespace). */
  lemma RoundTrip(q: QName)
    requires Parsable(q)
    ensures ParseClarkNotation(Format(q)) == Ok(q)
  {
    ParseClarkNotationComplete(q, Format(q));
  }

  /** The failure set: the text is accepted exactly when it is `{ns}local`,
      optionally followed by one line feed, for some parsable pair. So a
      string with no leading `{`, or with no `}`, is always rejected. */
  lemma ParseClarkNotationFails(s: string)
    ensures ParseClarkNotation(s).Ok? <==>
      exists q :: Parsable(q) && (s == Format(q) || s == Format(q) + "\n")
    ensures (|s| == 0 || s[0] != '{' || '}' !in s) ==> ParseClarkNotation(s).Err?
  {
    var r := ParseClarkNotation(s);
    if r.Ok? {
      assert Parsable(r.value) && (s == Format(r.value) || s == Format(r.value) + "\n");
      assert s[0] == '{' && s[|r.value.ns| + 1] == '}';
    } else if exists q :: Parsable(q) && (s == Format(q) || s == Format(q) + "\n") {
      var q :| Parsable(q) && (s == Format(q) || s == Format(q) + "\n");
      ParseClarkNotationComplete(q, s);
    }
  }
}
