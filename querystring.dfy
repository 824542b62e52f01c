/** How a redirect location's query string reaches the view that serves it:
    the browser drops the fragment (from the first '#'), the query is what
    follows the first '?', fields are separated by '&', a field's name and
    value by its first '=', '+' stands for a space and "%XX" for the character
    with that hexadecimal code. A later field with the same name wins, as
    `QueryDict.get` returns the last value. */
module QueryString {

  /** The characters escaping writes as "%XX": the two separators, the
      fragment mark and the two characters decoding rewrites. */
  predicate Reserved(c: char)
  {
    c == '&' || c == '=' || c == '#' || c == '%' || c == '+'
  }

  /** A field value that neither ends its field nor starts a fragment. A '='
      inside a value is harmless: a field is split at its first '='. */
  predicate ValueSafe(s: string)
  {
    forall i | 0 <= i < |s| :: s[i] != '&' && s[i] != '#'
  }

  /** A value that reaches the view as it was written: it is value-safe and
      holds neither of the characters decoding rewrites, '%' and '+'. */
  predicate Plain(s: string)
  {
    forall i | 0 <= i < |s| :: s[i] != '&' && s[i] != '#' && s[i] != '%' && s[i] != '+'
  }

  /** A parameter name: value-safe, and without the '=' that would end it. */
  predicate NoSeparators(s: string)
  {
    forall i | 0 <= i < |s| :: s[i] != '&' && s[i] != '=' && s[i] != '#'
  }

  function IndexOf(s: string, c: char): (i: nat)
    requires c in s
    ensures i < |s| && s[i] == c && c !in s[..i]
  {
    if s[0] == c then 0
    else
      var i := IndexOf(s[1..], c);
      assert s[..i + 1] == [s[0]] + s[1..][..i];
      1 + i
  }

  /** Python's `s.split(c)`. */
  function SplitOn(s: string, c: char): (parts: seq<string>)
    ensures parts != []
    decreases |s|
  {
    if c in s then
      var i := IndexOf(s, c);
      [s[..i]] + SplitOn(s[i + 1..], c)
    else
      [s]
  }

  lemma IndexOfAfter(a: string, c: char, b: string)
    requires c !in a
    ensures c in a + [c] + b && IndexOf(a + [c] + b, c) == |a|
  {
    var s := a + [c] + b;
    assert s[|a|] == c;
    forall j | 0 <= j < |a| ensures s[j] != c {
      assert s[j] == a[j];
    }
  }

  lemma SplitOnAfter(a: string, c: char, b: string)
    requires c !in a
    ensures SplitOn(a + [c] + b, c) == [a] + SplitOn(b, c)
  {
    var s := a + [c] + b;
    IndexOfAfter(a, c, b);
    assert s[..|a|] == a && s[|a| + 1..] == b;
  }

  /** The part of a location a browser sends: everything before the first '#'. */
  function BeforeFragment(url: string): string
  {
    if '#' in url then url[..IndexOf(url, '#')] else url
  }

  /** The query component of the part sent: what follows its first '?'. */
  function QueryOf(url: string): string
  {
    var sent := BeforeFragment(url);
    if '?' in sent then sent[IndexOf(sent, '?') + 1..] else ""
  }

  lemma BeforeFragmentCut(a: string, b: string)
    requires '#' !in a
    ensures BeforeFragment(a + "#" + b) == a
  {
    IndexOfAfter(a, '#', b);
  }

  predicate IsHex(c: char)
  {
    '0' <= c <= '9' || 'A' <= c <= 'F' || 'a' <= c <= 'f'
  }

  function HexValue(c: char): (v: nat)
    requires IsHex(c)
    ensures v < 16
  {
    if '0' <= c <= '9' then c as int - '0' as int
    else if 'A' <= c <= 'F' then c as int - 'A' as int + 10
    else c as int - 'a' as int + 10
  }

  function HexDigit(v: nat): (c: char)
    requires v < 16
    ensures IsHex(c) && HexValue(c) == v
  {
    "0123456789ABCDEF"[v]
  }

  /** Decodes '+' to a space and "%XX" to the character with code XX; any
      other '%' is kept as it is. */
  function Unescape(s: string): string
    decreases |s|
  {
    if s == [] then []
    else if s[0] == '+' then " " + Unescape(s[1..])
    else if s[0] == '%' && |s| >= 3 && IsHex(s[1]) && IsHex(s[2]) then
      [(HexValue(s[1]) * 16 + HexValue(s[2])) as char] + Unescape(s[3..])
    else
      [s[0]] + Unescape(s[1..])
  }

  /** A field "name=value" (or a bare "name", whose value is empty), decoded. */
  function ParseField(f: string): (string, string)
  {
    if '=' in f then
      var i := IndexOf(f, '=');
      (Unescape(f[..i]), Unescape(f[i + 1..]))
    else
      (Unescape(f), "")
  }

  /** The fields in order; empty fields are skipped and a later field
      overrides an earlier one with the same name. */
  function Collect(fields: seq<string>): map<string, string>
  {
    if fields == [] then map[]
    else
      var m := Collect(fields[..|fields| - 1]);
      var f := fields[|fields| - 1];
      if f == "" then m else m[ParseField(f).0 := ParseField(f).1]
  }

  function ParseQuery(qs: string): map<string, string>
  {
    Collect(SplitOn(qs, '&'))
  }

  lemma {:induction false} UnescapePlain(s: string)
    requires Plain(s)
    ensures Unescape(s) == s
  {
    if s != [] {
      assert Plain(s[1..]) by {
        forall i | 0 <= i < |s[1..]| ensures s[1..][i] == s[i + 1] {
        }
      }
      UnescapePlain(s[1..]);
      assert s[0] != '%' && s[0] != '+';
      assert s == [s[0]] + s[1..];
    }
  }

  /** A field "name=value" whose name holds no '='. */
  lemma ParseFieldAt(name: string, value: string)
    requires '=' !in name
    ensures ParseField(name + "=" + value) == (Unescape(name), Unescape(value))
  {
    IndexOfAfter(name, '=', value);
    var f := name + "=" + value;
    assert f[..|name|] == name && f[|name| + 1..] == value;
  }

  lemma FieldHasNoAmpersand(name: string, value: string)
    requires NoSeparators(name) && ValueSafe(value)
    ensures '&' !in name + "=" + value && '=' !in name
  {
    var f := name + "=" + value;
    forall i | 0 <= i < |f| ensures f[i] != '&' {
      if i < |name| {
        assert f[i] == name[i];
      } else if i > |name| {
        assert f[i] == value[i - |name| - 1];
      }
    }
    forall i | 0 <= i < |name| ensures name[i] != '=' {
    }
  }

  lemma CollectTwo(f1: string, f2: string)
    requires f1 != "" && f2 != ""
    ensures Collect([f1, f2]) == map[ParseField(f1).0 := ParseField(f1).1][ParseField(f2).0 := ParseField(f2).1]
  {
    var fs := [f1, f2];
    assert fs[..1] == [f1] && fs[1] == f2;
    assert [f1][..0] == [] && [f1][0] == f1;
    assert Collect([f1]) == Collect([])[ParseField(f1).0 := ParseField(f1).1];
    assert Collect(fs) == Collect([f1])[ParseField(f2).0 := ParseField(f2).1];
  }

  /** A query of two fields decodes to the two decoded pairs, the second
      taking precedence. */
  lemma ParseTwoFields(n1: string, v1: string, n2: string, v2: string)
    requires NoSeparators(n1) && ValueSafe(v1) && NoSeparators(n2) && ValueSafe(v2)
    ensures ParseQuery(n1 + "=" + v1 + "&" + n2 + "=" + v2)
         == map[Unescape(n1) := Unescape(v1)][Unescape(n2) := Unescape(v2)]
  {
    var f1, f2 := n1 + "=" + v1, n2 + "=" + v2;
    FieldHasNoAmpersand(n1, v1);
    FieldHasNoAmpersand(n2, v2);
    var qs := n1 + "=" + v1 + "&" + n2 + "=" + v2;
    assert qs == f1 + ['&'] + f2;
    SplitOnAfter(f1, '&', f2);
    assert SplitOn(f2, '&') == [f2];
    assert SplitOn(qs, '&') == [f1, f2];
    ParseFieldAt(n1, v1);
    ParseFieldAt(n2, v2);
    CollectTwo(f1, f2);
  }

  lemma PlainIsValueSafe(s: string)
    requires Plain(s)
    ensures ValueSafe(s) && '#' !in s
  {
    forall i | 0 <= i < |s| ensures s[i] != '&' && s[i] != '#' {
    }
  }

  lemma NoHashInConcat(a: string, b: string)
    requires '#' !in a && '#' !in b
    ensures '#' !in a + b
  {
    forall i | 0 <= i < |a + b| ensures (a + b)[i] != '#' {
      if i >= |a| {
        assert (a + b)[i] == b[i - |a|];
      }
    }
  }

  /** The names "author" and "title" decode to themselves and end at their '='. */
  lemma SearchParameterNames()
    ensures Unescape("author") == "author" && NoSeparators("author")
    ensures Unescape("title") == "title" && NoSeparators("title")
  {
    assert Plain("author") by {
      forall i | 0 <= i < 6 ensures "author"[i] in "author" { }
    }
    assert Plain("title") by {
      forall i | 0 <= i < 5 ensures "title"[i] in "title" { }
    }
    UnescapePlain("author");
    UnescapePlain("title");
  }

  /** The query `books_search` builds, read as two "name=value" fields. */
  lemma SearchQueryLayout(author: string, title: string)
    ensures "author=" + author + "&title=" + title == "author" + "=" + author + "&" + "title" + "=" + title
  {
    assert "author=" == "author" + "=";
    assert "&title=" == "&" + "title" + "=";
  }

  // ---------------------------------------------------------------------------
  // Escaping, for a location that must carry arbitrary text
  // ---------------------------------------------------------------------------

  function EscapeChar(c: char): (e: string)
    ensures Reserved(c) ==> |e| == 3 && e[0] == '%'
    ensures !Reserved(c) ==> e == [c]
  {
    if Reserved(c) then ['%', HexDigit(c as int / 16), HexDigit(c as int % 16)] else [c]
  }

  /** Writes each reserved character as "%XX". */
  function Escape(s: string): string
  {
    if s == [] then [] else EscapeChar(s[0]) + Escape(s[1..])
  }

  lemma {:induction false} EscapeNoSeparators(s: string)
    ensures NoSeparators(Escape(s)) && ValueSafe(Escape(s))
  {
    if s != [] {
      EscapeNoSeparators(s[1..]);
      var e, rest := EscapeChar(s[0]), Escape(s[1..]);
      forall i | 0 <= i < |e + rest| ensures (e + rest)[i] != '&' && (e + rest)[i] != '=' && (e + rest)[i] != '#' {
        if i >= |e| {
          assert (e + rest)[i] == rest[i - |e|];
        }
      }
    }
  }

  lemma UnescapeEscapeChar(c: char, rest: string)
    ensures Unescape(EscapeChar(c) + rest) == [c] + Unescape(rest)
  {
    var s := EscapeChar(c) + rest;
    if Reserved(c) {
      assert s[0] == '%' && s[1] == HexDigit(c as int / 16) && s[2] == HexDigit(c as int % 16);
      assert s[3..] == rest;
      assert (HexValue(s[1]) * 16 + HexValue(s[2])) as char == c;
    } else {
      assert s == [c] + rest;
    }
  }

  /** Decoding undoes escaping, for every string. */
  lemma {:induction false} UnescapeEscape(s: string)
    ensures Unescape(Escape(s)) == s
  {
    if s != [] {
      UnescapeEscapeChar(s[0], Escape(s[1..]));
      UnescapeEscape(s[1..]);
      assert s == [s[0]] + s[1..];
    }
  }
}
