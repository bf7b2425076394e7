/**
 * Administrative prefixes of entity names ("JUDEȚUL ", "MUNICIPIUL ",
 * "ORAȘ ", "BUCUREȘTI ") and the two ways the lookups drop them.
 */
module Names {
  import opened Text

  /** `_prefixes`, in the order in which they are removed. */
  const Prefixes: seq<string> :=
    ["JUDE\U{021A}UL ", "MUNICIPIUL ", "ORA\U{0218} ", "BUCURE\U{0218}TI "]

  /** `JUDEȚUL ` and `MUNICIPIUL `: the prefixes a county name can carry. */
  const CountyPrefixes: seq<string> := Prefixes[..2]

  predicate NonEmptyPatterns(ps: seq<string>) {
    forall i :: 0 <= i < |ps| ==> |ps[i]| > 0
  }

  /** `name.replace(p, "")` for each `p` of `ps` in turn. */
  function RemoveAll(name: string, ps: seq<string>): (r: string)
    requires NonEmptyPatterns(ps)
    ensures |r| <= |name|
  {
    if ps == [] then name
    else
      Replace(RemoveAll(name, ps[..|ps| - 1]), ps[|ps| - 1], "")
  }

  /** The name `get_name`/`get_sup_name` return with `prefix=False`. */
  function WithoutPrefixes(name: string): (r: string)
    ensures |r| <= |name| && Trimmed(r)
  {
    Strip(RemoveAll(name, Prefixes))
  }

  /** The name `get_county_string`/`get_all_counties` return with `prefix=False` (no strip). */
  function WithoutCountyPrefixes(name: string): (r: string)
    ensures |r| <= |name|
  {
    RemoveAll(name, CountyPrefixes)
  }

  /** The `for i in range(len(self._prefixes))` loop followed by `strip()`. */
  method DropPrefixes(name: string) returns (r: string)
    ensures r == WithoutPrefixes(name)
  {
    r := name;
    for i := 0 to |Prefixes|
      invariant r == RemoveAll(name, Prefixes[..i])
    {
      assert Prefixes[..i + 1][..i] == Prefixes[..i];
      r := Replace(r, Prefixes[i], "");
    }
    assert Prefixes[..|Prefixes|] == Prefixes;
    r := Strip(r);
  }

  /** A name free of every prefix, with no surrounding whitespace. */
  predicate Bare(t: string) {
    Trimmed(t) && forall j :: 0 <= j < |Prefixes| ==> !Occurs(Prefixes[j], t)
  }

  /** No earlier prefix starts with a character that a later prefix contains. */
  lemma EarlierPrefixesStartElsewhere(k: nat, i: nat)
    requires k < i < |Prefixes|
    ensures forall c :: 0 <= c < |Prefixes[i]| ==> Prefixes[i][c] != Prefixes[k][0]
  {
  }

  /** After removing the first `k` prefixes from `Prefixes[i] + t`. */
  lemma {:induction false} RemoveFirstPrefixes(i: nat, t: string, k: nat)
    requires i < |Prefixes| && k <= |Prefixes|
    requires forall j :: 0 <= j < |Prefixes| ==> !Occurs(Prefixes[j], t)
    ensures RemoveAll(Prefixes[i] + t, Prefixes[..k]) == if k <= i then Prefixes[i] + t else t
  {
    if k > 0 {
      var ps := Prefixes[..k];
      assert ps[..k - 1] == Prefixes[..k - 1];
      RemoveFirstPrefixes(i, t, k - 1);
      var p := Prefixes[k - 1];
      if k - 1 < i {
        EarlierPrefixesStartElsewhere(k - 1, i);
        ReplaceSkipsHead(Prefixes[i], t, p, "");
        ReplaceAbsent(t, p, "");
      } else if k - 1 == i {
        ReplaceLeading(t, p, "");
        ReplaceAbsent(t, p, "");
      } else {
        ReplaceAbsent(t, p, "");
      }
    }
  }

  /** Dropping prefixes from one prefix followed by a bare name gives the bare name. */
  lemma WithoutPrefixesOfPrefixed(i: nat, t: string)
    requires i < |Prefixes| && Bare(t)
    ensures WithoutPrefixes(Prefixes[i] + t) == t
  {
    RemoveFirstPrefixes(i, t, |Prefixes|);
    assert Prefixes[..|Prefixes|] == Prefixes;
    StripTrimmed(t);
  }

  /** A county name loses its `JUDEȚUL `/`MUNICIPIUL ` prefix and nothing else. */
  lemma WithoutCountyPrefixesOfPrefixed(i: nat, t: string)
    requires i < |CountyPrefixes| && Bare(t)
    ensures WithoutCountyPrefixes(Prefixes[i] + t) == t
  {
    RemoveFirstPrefixes(i, t, 2);
  }

  /** Names without a prefix are only stripped of surrounding whitespace. */
  lemma WithoutPrefixesOfUnprefixed(t: string)
    requires forall j :: 0 <= j < |Prefixes| ==> !Occurs(Prefixes[j], t)
    ensures WithoutPrefixes(t) == Strip(t)
    ensures WithoutCountyPrefixes(t) == t
  {
    RemoveNoneOf(t, |Prefixes|);
    assert Prefixes[..|Prefixes|] == Prefixes;
    RemoveNoneOf(t, 2);
  }

  lemma {:induction false} RemoveNoneOf(t: string, k: nat)
    requires k <= |Prefixes|
    requires forall j :: 0 <= j < |Prefixes| ==> !Occurs(Prefixes[j], t)
    ensures RemoveAll(t, Prefixes[..k]) == t
  {
    if k > 0 {
      assert Prefixes[..k][..k - 1] == Prefixes[..k - 1];
      RemoveNoneOf(t, k - 1);
      ReplaceAbsent(t, Prefixes[k - 1], "");
    }
  }

  /** A pattern longer than the text cannot occur in it. */
  lemma TooLongToOccur(p: string, s: string)
    requires |p| > |s|
    ensures !Occurs(p, s)
  {
  }

  /** The county of Alba: "JUDEȚUL ALBA" without its prefix is "ALBA". */
  lemma AlbaWithoutPrefix()
    ensures WithoutPrefixes(Prefixes[0] + "ALBA") == "ALBA"
    ensures WithoutCountyPrefixes(Prefixes[0] + "ALBA") == "ALBA"
  {
    forall j | 0 <= j < |Prefixes|
      ensures !Occurs(Prefixes[j], "ALBA")
    {
      TooLongToOccur(Prefixes[j], "ALBA");
    }
    WithoutPrefixesOfPrefixed(0, "ALBA");
    WithoutCountyPrefixesOfPrefixed(0, "ALBA");
  }
}
