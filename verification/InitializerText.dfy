/**
 * The text of one C initializer, `{3,<nwords>,0x<n0inv>,<v0>,<v1>,...}`, and the
 * reading of such a text back into its fields. Reading back is the inverse of
 * writing, which pins the text down exactly.
 */
module InitializerText {
  import opened Results
  import opened Radix

  /** Texts joined by single commas, with no trailing comma. */
  function Join(ss: seq<string>): string
  {
    if |ss| == 0 then "" else if |ss| == 1 then ss[0] else ss[0] + "," + Join(ss[1..])
  }

  /** Appending one more text adds one comma and the text. */
  lemma {:induction false} JoinSnoc(ss: seq<string>, t: string)
    requires |ss| >= 1
    ensures Join(ss + [t]) == Join(ss) + "," + t
  {
    if |ss| > 1 {
      assert (ss + [t])[1..] == ss[1..] + [t];
      JoinSnoc(ss[1..], t);
    } else {
      assert (ss + [t])[1..] == [t];
    }
  }

  /** The pieces of a text between its commas. */
  function Split(s: string): (r: seq<string>)
    ensures |r| >= 1
  {
    if s == [] then [""]
    else
      var rest := Split(s[1..]);
      if s[0] == ',' then [""] + rest else [[s[0]] + rest[0]] + rest[1..]
  }

  lemma {:induction false} SplitNoComma(s: string)
    requires ',' !in s
    ensures Split(s) == [s]
  {
    if s != [] {
      SplitNoComma(s[1..]);
      assert [s[0]] + s[1..] == s;
    }
  }

  lemma {:induction false} SplitAfter(a: string, b: string)
    requires ',' !in a
    ensures Split(a + "," + b) == [a] + Split(b)
  {
    var s := a + "," + b;
    if a == [] {
      assert s == [','] + b;
      assert s[1..] == b;
    } else {
      assert s[1..] == a[1..] + "," + b;
      SplitAfter(a[1..], b);
      assert [a[0]] + a[1..] == a;
    }
  }

  /** Cutting a comma-joined list at its commas gives the list back, when no entry holds a comma. */
  lemma {:induction false} SplitJoin(ss: seq<string>)
    requires |ss| >= 1
    requires forall i :: 0 <= i < |ss| ==> ',' !in ss[i]
    ensures Split(Join(ss)) == ss
  {
    if |ss| == 1 {
      SplitNoComma(ss[0]);
    } else {
      SplitJoin(ss[1..]);
      SplitAfter(ss[0], Join(ss[1..]));
      assert [ss[0]] + ss[1..] == ss;
    }
  }

  /** Joining the pieces of a text with commas gives the text back. */
  lemma {:induction false} JoinSplit(s: string)
    ensures Join(Split(s)) == s
  {
    if s != [] {
      JoinSplit(s[1..]);
      var rest := Split(s[1..]);
      if s[0] == ',' {
        assert Join([""] + rest) == "" + "," + Join(rest);
      } else if |rest| == 1 {
        assert [s[0]] + s[1..] == s;
      } else {
        assert ([[s[0]] + rest[0]] + rest[1..])[1..] == rest[1..];
        assert Join(rest) == rest[0] + "," + Join(rest[1..]);
        assert [s[0]] + s[1..] == s;
      }
    }
  }

  /** Each number as decimal text. */
  function Decimals(vals: seq<nat>): (r: seq<string>)
    ensures |r| == |vals|
  {
    if vals == [] then [] else [Dec(vals[0])] + Decimals(vals[1..])
  }

  /** Entry i is the decimal text of value i. */
  lemma {:induction false} DecimalsAt(vals: seq<nat>, i: nat)
    requires i < |vals|
    ensures Decimals(vals)[i] == Dec(vals[i])
  {
    if i > 0 {
      DecimalsAt(vals[1..], i - 1);
    }
  }

  /** Writing two lists one after the other is writing their concatenation. */
  lemma {:induction false} DecimalsAppend(a: seq<nat>, b: seq<nat>)
    ensures Decimals(a + b) == Decimals(a) + Decimals(b)
  {
    if a != [] {
      DecimalsAppend(a[1..], b);
      assert (a + b)[1..] == a[1..] + b;
    } else {
      assert a + b == b;
    }
  }

  /** The initializer the tool writes: the exponent 3, the word count, the Montgomery constant in hex, then the words. */
  function Literal(nwords: nat, n0inv: nat, vals: seq<nat>): string
  {
    "{3," + Dec(nwords) + ",0x" + Hex(n0inv) + "," + Join(Decimals(vals)) + "}"
  }

  /** The fields an initializer carries. */
  datatype Initializer = Initializer(exponent: nat, nwords: nat, n0inv: nat, vals: seq<nat>)

  /** Reads a list of decimal texts, failing on any that is not canonical. */
  function ParseNumbers(fields: seq<string>): Option<seq<nat>>
  {
    if fields == [] then Some([])
    else
      match (ParseRadix(fields[0], 10), ParseNumbers(fields[1..]))
      case (Some(v), Some(vs)) => Some([v] + vs)
      case _ => None
  }

  /** Reads decimal texts back exactly when they are the texts of those numbers. */
  lemma {:induction false} ParseNumbersIff(fields: seq<string>, vals: seq<nat>)
    ensures ParseNumbers(fields) == Some(vals) <==> fields == Decimals(vals)
  {
    if fields != [] && vals != [] {
      ParseRadixIff(fields[0], vals[0], 10);
      ParseNumbersIff(fields[1..], vals[1..]);
      assert [vals[0]] + vals[1..] == vals;
      assert [fields[0]] + fields[1..] == fields;
    } else if fields != [] {
      match ParseRadix(fields[0], 10)
      case None =>
      case Some(v) =>
        ParseNumbersIff(fields[1..], []);
    } else if vals != [] {
      assert Decimals(vals) != [];
    }
  }

  /** Reads an initializer back into its fields. */
  function ParseLiteral(s: string): Option<Initializer>
  {
    if |s| < 2 || s[0] != '{' || s[|s| - 1] != '}' then None
    else
      var fields := Split(s[1..|s| - 1]);
      if |fields| < 4 || |fields[2]| < 2 || fields[2][..2] != "0x" then None
      else
        match (ParseRadix(fields[0], 10), ParseRadix(fields[1], 10),
               ParseRadix(fields[2][2..], 16), ParseNumbers(fields[3..]))
        case (Some(e), Some(nw), Some(inv), Some(vals)) => Some(Initializer(e, nw, inv, vals))
        case _ => None
  }

  /** The initializer's fields as a list of texts before joining. */
  function Fields(nwords: nat, n0inv: nat, vals: seq<nat>): seq<string>
  {
    ["3", Dec(nwords), "0x" + Hex(n0inv)] + Decimals(vals)
  }

  lemma LiteralFields(nwords: nat, n0inv: nat, vals: seq<nat>)
    requires |vals| >= 1
    ensures Literal(nwords, n0inv, vals) == "{" + Join(Fields(nwords, n0inv, vals)) + "}"
  {
    var ds := Decimals(vals);
    var third := "0x" + Hex(n0inv);
    assert Fields(nwords, n0inv, vals) == ["3"] + ([Dec(nwords)] + ([third] + ds));
    JoinCons(third, ds);
    JoinCons(Dec(nwords), [third] + ds);
    JoinCons("3", [Dec(nwords)] + ([third] + ds));
    Bracketed(Dec(nwords), Hex(n0inv), Join(ds));
  }

  lemma Bracketed(d: string, h: string, j: string)
    ensures "{3," + d + ",0x" + h + "," + j + "}" == "{" + ("3" + "," + (d + "," + (("0x" + h) + "," + j))) + "}"
  {
    assert "{" + "3" + "," == "{3,";
  }

  /** A text put in front of a nonempty list is followed by one comma. */
  lemma JoinCons(t: string, ss: seq<string>)
    requires |ss| >= 1
    ensures Join([t] + ss) == t + "," + Join(ss)
  {
    assert ([t] + ss)[1..] == ss;
  }

  lemma FieldsHaveNoComma(nwords: nat, n0inv: nat, vals: seq<nat>)
    ensures forall i :: 0 <= i < |Fields(nwords, n0inv, vals)| ==> ',' !in Fields(nwords, n0inv, vals)[i]
  {
    var fs := Fields(nwords, n0inv, vals);
    forall i | 0 <= i < |fs|
      ensures ',' !in fs[i]
    {
      if i == 0 {
      } else if i == 1 {
        ToRadixCanonical(nwords, 10);
        CanonicalHasNoComma(Dec(nwords), 10);
      } else if i == 2 {
        ToRadixCanonical(n0inv, 16);
        CanonicalHasNoComma(Hex(n0inv), 16);
        assert fs[2] == "0x" + Hex(n0inv);
      } else {
        DecimalsAt(vals, i - 3);
        assert fs[i] == Dec(vals[i - 3]);
        ToRadixCanonical(vals[i - 3], 10);
        CanonicalHasNoComma(Dec(vals[i - 3]), 10);
      }
    }
  }

  /**
   * A text reads back as an initializer with exponent 3 and at least one word value
   * exactly when it is the text written for those fields.
   */
  lemma ParseLiteralIff(s: string, nwords: nat, n0inv: nat, vals: seq<nat>)
    requires |vals| >= 1
    ensures ParseLiteral(s) == Some(Initializer(3, nwords, n0inv, vals)) <==> s == Literal(nwords, n0inv, vals)
  {
    if s == Literal(nwords, n0inv, vals) {
      LiteralParses(nwords, n0inv, vals);
    }
    if ParseLiteral(s) == Some(Initializer(3, nwords, n0inv, vals)) {
      ParsedIsLiteral(s, nwords, n0inv, vals);
    }
  }

  /** Writing then reading gives back the fields. */
  lemma LiteralParses(nwords: nat, n0inv: nat, vals: seq<nat>)
    requires |vals| >= 1
    ensures ParseLiteral(Literal(nwords, n0inv, vals)) == Some(Initializer(3, nwords, n0inv, vals))
  {
    var s := Literal(nwords, n0inv, vals);
    var fs := Fields(nwords, n0inv, vals);
    ParseRadixIff("3", 3, 10);
    ParseRadixIff(Dec(nwords), nwords, 10);
    ParseRadixIff(Hex(n0inv), n0inv, 16);
    ParseNumbersIff(Decimals(vals), vals);
    LiteralFields(nwords, n0inv, vals);
    FieldsHaveNoComma(nwords, n0inv, vals);
    SplitJoin(fs);
    assert s[1..|s| - 1] == Join(fs);
    assert fs[2][..2] == "0x" && fs[2][2..] == Hex(n0inv);
    assert fs[3..] == Decimals(vals);
  }

  /** Only the written text reads back as these fields. */
  lemma ParsedIsLiteral(s: string, nwords: nat, n0inv: nat, vals: seq<nat>)
    requires |vals| >= 1
    requires ParseLiteral(s) == Some(Initializer(3, nwords, n0inv, vals))
    ensures s == Literal(nwords, n0inv, vals)
  {
    var fs := Fields(nwords, n0inv, vals);
    var fields := Split(s[1..|s| - 1]);
    ParseRadixIff(fields[0], 3, 10);
    ParseRadixIff(fields[1], nwords, 10);
    ParseRadixIff(fields[2][2..], n0inv, 16);
    ParseNumbersIff(fields[3..], vals);
    assert fields[2] == fields[2][..2] + fields[2][2..];
    assert fields == [fields[0], fields[1], fields[2]] + fields[3..];
    assert fields == fs;
    JoinSplit(s[1..|s| - 1]);
    LiteralFields(nwords, n0inv, vals);
    Enclosed(s, Join(fs));
  }

  lemma Enclosed(s: string, inner: string)
    requires |s| >= 2 && s[0] == '{' && s[|s| - 1] == '}' && s[1..|s| - 1] == inner
    ensures s == "{" + inner + "}"
  {
    assert s == [s[0]] + s[1..|s| - 1] + [s[|s| - 1]];
  }
}
