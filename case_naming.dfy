/**
 * `snake_case_to_camel_case` (back/src/main.py), which names the routes' operation
 * ids: split the name at `_`, keep the first component, title-case the others and
 * concatenate. Title-casing is Python's `str.title` restricted to ASCII letters.
 */
module CaseNaming {
  import opened Text

  /** The number of underscores in `s`. */
  function Underscores(s: string): nat
  {
    if s == [] then 0 else (if s[0] == '_' then 1 else 0) + Underscores(s[1..])
  }

  /** `s.split("_")`: the components between underscores, empty ones included. */
  function Split(s: string): (parts: seq<string>)
    ensures |parts| == Underscores(s) + 1
    ensures forall i | 0 <= i < |parts| :: '_' !in parts[i]
  {
    if s == [] then [""]
    else
      var rest := Split(s[1..]);
      if s[0] == '_' then [""] + rest
      else [[s[0]] + rest[0]] + rest[1..]
  }

  /** `"_".join(parts)`. */
  function Join(parts: seq<string>): string
    requires |parts| >= 1
  {
    if |parts| == 1 then parts[0] else parts[0] + "_" + Join(parts[1..])
  }

  /** Splitting loses nothing: joining the components back gives the name. */
  lemma {:induction false} JoinSplit(s: string)
    ensures Join(Split(s)) == s
  {
    if s != [] {
      var rest := Split(s[1..]);
      JoinSplit(s[1..]);
      if s[0] == '_' {
        assert Split(s)[1..] == rest;
        assert s == "" + "_" + s[1..];
      } else {
        var parts := Split(s);
        assert parts[1..] == rest[1..];
        if |rest| == 1 {
          assert s == [s[0]] + rest[0];
        } else {
          assert Join(rest) == rest[0] + "_" + Join(rest[1..]);
          assert s == ([s[0]] + rest[0]) + "_" + Join(rest[1..]);
        }
      }
    }
  }

  /** A name without underscores is one component. */
  lemma {:induction false} SplitWithoutUnderscore(s: string)
    requires '_' !in s
    ensures Split(s) == [s]
  {
    if s != [] {
      assert '_' !in s[1..];
      SplitWithoutUnderscore(s[1..]);
      assert s[0] != '_' && [s[0]] + s[1..] == s;
    }
  }

  lemma {:induction false} SplitAppend(a: string, b: string)
    requires '_' !in a
    ensures Split(a + "_" + b) == [a] + Split(b)
  {
    var s := a + "_" + b;
    if a == [] {
      assert s[0] == '_' && s[1..] == b;
    } else {
      assert '_' !in a[1..];
      SplitAppend(a[1..], b);
      assert s[0] == a[0] && a[0] != '_';
      assert s[1..] == a[1..] + "_" + b;
      assert [a[0]] + a[1..] == a;
    }
  }

  /** Joining components that hold no underscore and splitting again gives the components back. */
  lemma {:induction false} SplitJoin(parts: seq<string>)
    requires |parts| >= 1
    requires forall i | 0 <= i < |parts| :: '_' !in parts[i]
    ensures Split(Join(parts)) == parts
  {
    if |parts| == 1 {
      SplitWithoutUnderscore(parts[0]);
    } else {
      SplitJoin(parts[1..]);
      SplitAppend(parts[0], Join(parts[1..]));
      assert [parts[0]] + parts[1..] == parts;
    }
  }

  predicate IsCased(c: char)
  {
    'a' <= c <= 'z' || 'A' <= c <= 'Z'
  }

  function Upper(c: char): char
  {
    if 'a' <= c <= 'z' then (c as int - 32) as char else c
  }

  function Lower(c: char): char
  {
    if 'A' <= c <= 'Z' then (c as int + 32) as char else c
  }

  /** A letter is upper-cased when it starts a word and lower-cased inside one; anything else is kept. */
  function TitleChar(c: char, afterCased: bool): (r: char)
    ensures IsCased(r) == IsCased(c)
    ensures !IsCased(c) ==> r == c
  {
    if IsCased(c) then (if afterCased then Lower(c) else Upper(c)) else c
  }

  /** `str.title` on the rest of a string whose previous character was (or was not) a letter. */
  function TitleFrom(s: string, afterCased: bool): (t: string)
    ensures |t| == |s|
    ensures forall i | 0 <= i < |s| :: t[i] == TitleChar(s[i], if i == 0 then afterCased else IsCased(s[i - 1]))
  {
    if s == [] then []
    else [TitleChar(s[0], afterCased)] + TitleFrom(s[1..], IsCased(s[0]))
  }

  /** `x.title()`. */
  function Title(s: string): (t: string)
    ensures |t| == |s|
    ensures forall i | 0 <= i < |s| :: t[i] == TitleChar(s[i], i > 0 && IsCased(s[i - 1]))
  {
    TitleFrom(s, false)
  }

  /** `"".join(x.title() for x in parts)`. */
  function TitleAll(parts: seq<string>): (t: string)
    ensures |t| == TotalLength(parts)
  {
    if parts == [] then "" else Title(parts[0]) + TitleAll(parts[1..])
  }

  /** `snake_case_to_camel_case(name)`. */
  function SnakeCaseToCamelCase(name: string): string
  {
    var components := Split(name);
    components[0] + TitleAll(components[1..])
  }

  function TotalLength(parts: seq<string>): nat
  {
    if parts == [] then 0 else |parts[0]| + TotalLength(parts[1..])
  }

  lemma {:induction false} TitleAllShape(parts: seq<string>)
    requires forall i | 0 <= i < |parts| :: '_' !in parts[i]
    ensures |TitleAll(parts)| == TotalLength(parts)
    ensures '_' !in TitleAll(parts)
  {
    if parts != [] {
      TitleAllShape(parts[1..]);
      var t := Title(parts[0]);
      forall k | 0 <= k < |t| ensures t[k] != '_' {
        var afterCased := k > 0 && IsCased(parts[0][k - 1]);
        assert t[k] == TitleChar(parts[0][k], afterCased);
        assert parts[0][k] != '_';
      }
    }
  }

  lemma {:induction false} JoinLength(parts: seq<string>)
    requires |parts| >= 1
    ensures |Join(parts)| == TotalLength(parts) + |parts| - 1
  {
    if |parts| > 1 {
      JoinLength(parts[1..]);
    }
  }

  /** The first component is kept verbatim at the front of the result. */
  lemma FirstComponentKept(name: string)
    ensures StartsWith(SnakeCaseToCamelCase(name), Split(name)[0])
  {
    PrefixStrip(Split(name)[0], TitleAll(Split(name)[1..]));
  }

  /** The result holds no underscore, and is shorter than the name by exactly its underscores. */
  lemma CamelCaseShape(name: string)
    ensures '_' !in SnakeCaseToCamelCase(name)
    ensures |SnakeCaseToCamelCase(name)| == |name| - Underscores(name)
  {
    var parts := Split(name);
    TitleAllShape(parts[1..]);
    JoinSplit(name);
    JoinLength(parts);
  }

  /** A name without underscores is returned unchanged. */
  lemma CamelCaseWithoutUnderscore(name: string)
    requires '_' !in name
    ensures SnakeCaseToCamelCase(name) == name
  {
    SplitWithoutUnderscore(name);
  }

  lemma SplitExample()
    ensures Split("get_cur_user") == ["get", "cur", "user"]
  {
    var parts := ["get", "cur", "user"];
    assert Join(parts[2..]) == "user";
    assert Join(parts[1..]) == "cur_user";
    assert Join(parts) == "get_cur_user";
    SplitJoin(parts);
  }

  lemma TitleCur()
    ensures Title("cur") == "Cur"
  {
    assert TitleFrom("r", true) == "r";
    assert TitleFrom("ur", true) == "ur";
  }

  lemma TitleUser()
    ensures Title("user") == "User"
  {
    assert TitleFrom("r", true) == "r";
    assert TitleFrom("er", true) == "er";
    assert TitleFrom("ser", true) == "ser";
  }

  lemma TitleExample()
    ensures TitleAll(["cur", "user"]) == "CurUser"
  {
    TitleCur();
    TitleUser();
    assert ["cur", "user"][1..] == ["user"];
  }

  // The literal facts are kept in lemmas of their own: stated inside
  // `CamelCaseExample`, beside the unfolded `Split`, they cost the solver too much.
  lemma ExampleParts(parts: seq<string>)
    requires parts == ["get", "cur", "user"]
    ensures parts[0] == "get" && parts[1..] == ["cur", "user"]
  {
  }

  lemma ExampleConcat()
    ensures "get" + "CurUser" == "getCurUser"
  {
  }

  /** Each later component is title-cased: `get_cur_user` becomes `getCurUser`. */
  lemma CamelCaseExample(name: string)
    requires name == "get_cur_user"
    ensures SnakeCaseToCamelCase(name) == "getCurUser"
  {
    SplitExample();
    var parts := Split(name);
    ExampleParts(parts);
    TitleExample();
    ExampleConcat();
  }
}
