/** Filter expressions `attribute eq "value"` (a fragment of RFC 7644 section 3.4.2.2), as the client
    prints them and the server takes them apart. */
module Filter {
  import opened Text
  import opened Scim

  const USER_NAME := "userName"
  const DISPLAY_NAME := "displayName"

  /** `fmt.Sprintf("userName eq \"%s\"", name)` and its team counterpart. */
  function Print(attribute: string, name: string): string {
    attribute + " eq \"" + name + "\""
  }

  /** The value the server looks for; `None` stands for a filter it does not understand, which
      selects nothing. */
  function Parse(attribute: string, filter: string): Option<string> {
    var parts := Split(filter, "eq");
    if Contains(filter, attribute + " eq") && |parts| == 2 then Some(TrimQuotes(TrimSpace(parts[1]))) else None
  }

  // ----- finding the separator ----------------------------------------------------------------

  lemma IndexUnique(s: string, sep: string, i: int)
    requires OccursAt(s, sep, i) && forall j | 0 <= j < i :: !OccursAt(s, sep, j)
    ensures Index(s, sep) == i
  {
  }

  /** The value part of a printed filter contains `eq` exactly when the name does. */
  lemma SeparatorInValue(name: string)
    ensures Contains(" \"" + name + "\"", "eq") <==> Contains(name, "eq")
  {
    var v := " \"" + name + "\"";
    assert forall j | 0 <= j < |name| :: v[j + 2] == name[j];
    forall j ensures OccursAt(v, "eq", j) <==> OccursAt(name, "eq", j - 2) {
      if 0 <= j <= |v| - 2 {
        assert v[j..j + 2] == [v[j], v[j + 1]];
      }
      if 2 <= j <= |name| {
        assert name[j - 2..j] == [name[j - 2], name[j - 1]];
      }
    }
    if Contains(v, "eq") {
      assert OccursAt(name, "eq", Index(v, "eq") - 2);
    }
    if Contains(name, "eq") {
      assert OccursAt(v, "eq", Index(name, "eq") + 2);
    }
  }

  predicate Attribute(attribute: string) {
    attribute == USER_NAME || attribute == DISPLAY_NAME
  }

  lemma PrefixContained(prefix: string, rest: string)
    ensures Contains(prefix + rest, prefix)
  {
    assert (prefix + rest)[..|prefix|] == prefix;
    assert OccursAt(prefix + rest, prefix, 0);
  }

  lemma FirstSeparator(attribute: string, name: string)
    requires Attribute(attribute)
    ensures var filter := Print(attribute, name);
            && Contains(filter, attribute + " eq")
            && Index(filter, "eq") == |attribute| + 1
            && filter[|attribute| + 3..] == " \"" + name + "\""
  {
    var filter := Print(attribute, name);
    var n := |attribute| + 1;
    PrefixContained(attribute + " eq", " \"" + name + "\"");
    assert filter == attribute + " eq" + (" \"" + name + "\"");
    forall j | 0 <= j < n ensures !OccursAt(filter, "eq", j) {
      assert filter[j..j + 2] == [filter[j], filter[j + 1]];
      assert filter[j] == (attribute + " ")[j];
      assert USER_NAME[0] == 'u' && USER_NAME[1] == 's' && USER_NAME[3] == 'r' && USER_NAME[2] == 'e';
    }
    assert filter[n..n + 2] == "eq";
    IndexUnique(filter, "eq", n);
  }

  // ----- the round trip -----------------------------------------------------------------------

  lemma {:induction false} TrimDropsLast(s: string, c: char, cut: char -> bool)
    requires cut(c)
    ensures Trim(s + [c], cut) == Trim(s, cut)
    decreases |s|
  {
    if s == "" {
      assert [c][1..] == "";
    } else if cut(s[0]) {
      assert (s + [c])[1..] == s[1..] + [c];
      TrimDropsLast(s[1..], c, cut);
    } else {
      assert (s + [c])[..|s|] == s;
    }
  }

  lemma QuotedValueTrims(name: string)
    ensures TrimQuotes(TrimSpace(" \"" + name + "\"")) == TrimQuotes(name)
  {
    var v := " \"" + name + "\"";
    var q := "\"" + name + "\"";
    assert v[1..] == q && q[1..] == name + "\"";
    assert TrimSpace(v) == TrimSpace(q) == q;
    TrimDropsLast(name, '"', IsQuote);
  }

  lemma SplitTail(filter: string, sep: string, i: nat)
    requires sep != "" && Index(filter, sep) == i
    ensures |Split(filter, sep)| == 1 + |Split(filter[i + |sep|..], sep)|
    ensures Split(filter, sep)[1..] == Split(filter[i + |sep|..], sep)
  {
    hide Index;
  }

  /** What the server reads back from a printed filter: the name without its outer quotes, or
      nothing at all when the name contains `eq`. */
  lemma ParsePrint(attribute: string, name: string)
    requires Attribute(attribute)
    ensures Parse(attribute, Print(attribute, name))
            == if Contains(name, "eq") then None else Some(TrimQuotes(name))
  {
    var filter, v := Print(attribute, name), " \"" + name + "\"";
    FirstSeparator(attribute, name);
    SplitTail(filter, "eq", |attribute| + 1);
    SeparatorInValue(name);
    QuotedValueTrims(name);
    if Contains(name, "eq") {
      SplitTail(v, "eq", Index(v, "eq"));
    } else {
      assert Split(filter, "eq")[1] == Split(filter, "eq")[1..][0] == v;
    }
  }

  /** The names a filter carries faithfully. */
  predicate Printable(name: string) {
    !Contains(name, "eq") && (name != "" ==> name[0] != '"' && name[|name| - 1] != '"')
  }

  /** Printing a filter and parsing it back gives the name exactly for the printable names. */
  lemma RoundTrip(attribute: string, name: string)
    requires Attribute(attribute)
    ensures Parse(attribute, Print(attribute, name)) == Some(name) <==> Printable(name)
  {
    ParsePrint(attribute, name);
  }

  // ----- lookups by name ----------------------------------------------------------------------

  /** The possible answers of the server's filtered list, which stops at the first match that map
      iteration comes across. */
  ghost predicate Selects<V>(entries: map<string, V>, nameOf: V -> string, wanted: Option<string>, answer: Option<V>) {
    match answer
    case Some(v) => wanted.Some? && nameOf(v) == wanted.value && exists id :: id in entries && entries[id] == v
    case None => wanted.None? || forall id | id in entries :: nameOf(entries[id]) != wanted.value
  }

  /** `GetScimUserByUsername` and `GetScimTeamByDisplayName`: what a lookup by name can answer. */
  ghost predicate Lookup<V>(attribute: string, entries: map<string, V>, nameOf: V -> string, name: string,
                            answer: Option<V>) {
    Selects(entries, nameOf, Parse(attribute, Print(attribute, name)), answer)
  }

  /** A lookup of a printable name finds an entry of that name, and finds one whenever there is one. */
  lemma LookupFinds<V>(attribute: string, entries: map<string, V>, nameOf: V -> string, name: string, answer: Option<V>)
    requires Attribute(attribute) && Printable(name) && Lookup(attribute, entries, nameOf, name, answer)
    ensures answer.Some? <==> exists id :: id in entries && nameOf(entries[id]) == name
    ensures answer.Some? ==> nameOf(answer.value) == name
  {
    RoundTrip(attribute, name);
  }

  /** For any other name the lookup misses an entry of exactly that name, even as the only one. */
  lemma LookupMisses<V>(attribute: string, id: string, v: V, nameOf: V -> string, answer: Option<V>)
    requires Attribute(attribute) && !Printable(nameOf(v))
    requires Lookup(attribute, map[id := v], nameOf, nameOf(v), answer)
    ensures answer == None
  {
    RoundTrip(attribute, nameOf(v));
  }

  /** A name in quotes finds the entry of the name without them. */
  lemma QuotedNameFindsAnother<V>(attribute: string, entries: map<string, V>, nameOf: V -> string, name: string,
      answer: Option<V>)
    requires Attribute(attribute) && !Contains(name, "eq") && Lookup(attribute, entries, nameOf, name, answer)
    ensures answer.Some? <==> exists id :: id in entries && nameOf(entries[id]) == TrimQuotes(name)
    ensures answer.Some? ==> nameOf(answer.value) == TrimQuotes(name)
  {
    ParsePrint(attribute, name);
  }
}
