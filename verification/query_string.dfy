/** Reading back a `base?key=value&key=value...` URL: the reference against
    which the uploader's URL assembly is checked. */
module QueryString {
  import opened Wrappers
  import opened Strings

  /** One `key=value` assignment of a query string. */
  datatype Pair = Pair(key: string, value: string)

  /** `"{0}={1}".format(key, value)`. */
  function Assign(key: string, value: string): string {
    key + "=" + value
  }

  /** Splits an assignment at its first `=`; text with no `=` is a key with
      an empty value. */
  function SplitAssignment(part: string): Pair {
    var i := Find(part, "=");
    if i == -1 then Pair(part, "") else Pair(part[..i], part[i + 1..])
  }

  /** The assignments of `url` when it is `base` followed by `?`; `None`
      when it is not. Nothing is URL-decoded, since nothing was encoded. */
  function Parse(base: string, url: string): Option<seq<Pair>> {
    if StartsWith(url, base + "?") then
      var parts := Split(url[|base| + 1..], '&');
      Some(seq(|parts|, i requires 0 <= i < |parts| => SplitAssignment(parts[i])))
    else None
  }

  /** A key without `=` is recovered from its assignment, whatever the value. */
  lemma SplitAssign(key: string, value: string)
    requires '=' !in key
    ensures SplitAssignment(Assign(key, value)) == Pair(key, value)
  {
    var a := Assign(key, value);
    assert OccursAt(a, "=", |key|) by {
      assert a[|key|..|key| + 1] == "=";
    }
    forall j | 0 <= j < |key| ensures !OccursAt(a, "=", j) {
      assert a[j..j + 1][0] == a[j] == key[j];
      assert key[j] in key;
    }
    var i := Find(a, "=");
    assert i == |key|;
    assert a[..i] == key;
    assert a[i + 1..] == value;
  }

  /** Joining assignments behind `base?` and parsing gives them back,
      provided no value holds `&` and no key holds `&` or `=`. */
  lemma {:induction false} ParseJoin(base: string, pairs: seq<Pair>)
    requires |pairs| >= 1
    requires forall i :: 0 <= i < |pairs| ==> '=' !in pairs[i].key && '&' !in pairs[i].key
    requires forall i :: 0 <= i < |pairs| ==> '&' !in pairs[i].value
    ensures Parse(base, base + "?" + Join("&", seq(|pairs|, i requires 0 <= i < |pairs| => Assign(pairs[i].key, pairs[i].value)))) == Some(pairs)
  {
    var parts := seq(|pairs|, i requires 0 <= i < |pairs| => Assign(pairs[i].key, pairs[i].value));
    var query := Join("&", parts);
    var url := base + "?" + query;
    assert StartsWith(url, base + "?");
    assert url[|base| + 1..] == query;
    forall i | 0 <= i < |parts| ensures '&' !in parts[i] {
      assert parts[i] == pairs[i].key + "=" + pairs[i].value;
    }
    SplitJoin(parts, '&');
    var split := Split(query, '&');
    assert split == parts;
    var got := seq(|split|, i requires 0 <= i < |split| => SplitAssignment(split[i]));
    forall i | 0 <= i < |pairs| ensures got[i] == pairs[i] {
      SplitAssign(pairs[i].key, pairs[i].value);
    }
    assert got == pairs;
  }

  /** A value of the form `v1&k2=v2` reads back as two parameters: an `&`
      inside a value starts a new one, which is why `ParseJoin` requires
      values free of `&`. */
  lemma AmpersandInValueSplitsIt(base: string, key: string, v1: string, k2: string, v2: string)
    requires '=' !in key && '&' !in key && '=' !in k2 && '&' !in k2
    requires '&' !in v1 && '&' !in v2
    ensures Parse(base, base + "?" + Assign(key, v1 + "&" + k2 + "=" + v2))
      == Some([Pair(key, v1), Pair(k2, v2)])
  {
    var pairs := [Pair(key, v1), Pair(k2, v2)];
    var parts := seq(|pairs|, i requires 0 <= i < |pairs| => Assign(pairs[i].key, pairs[i].value));
    assert Join("&", parts) == Assign(key, v1 + "&" + k2 + "=" + v2);
    ParseJoin(base, pairs);
  }
}
