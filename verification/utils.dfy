/** The string helper of the editor's user-interface code: trimString,
    which drops every space character, not only leading and trailing ones. */
module Utils {

  /** `s` with every ' ' removed and every other character kept, in order. */
  function WithoutSpaces(s: string): (r: string)
  {
    if s == [] then []
    else if s[0] == ' ' then WithoutSpaces(s[1..])
    else [s[0]] + WithoutSpaces(s[1..])
  }

  /** Removing spaces distributes over concatenation. */
  lemma {:induction false} WithoutSpacesAppend(a: string, b: string)
    ensures WithoutSpaces(a + b) == WithoutSpaces(a) + WithoutSpaces(b)
  {
    if a == [] {
      assert a + b == b;
    } else {
      assert (a + b)[1..] == a[1..] + b;
      WithoutSpacesAppend(a[1..], b);
    }
  }

  /** The source's trimString: walks the input once, appending every
      character that is not a space. */
  method TrimString(str: string) returns (trimmed: string)
    ensures trimmed == WithoutSpaces(str)
    ensures ' ' !in trimmed
    ensures |trimmed| <= |str|
  {
    trimmed := "";
    var i := 0;
    while i < |str|
      invariant 0 <= i <= |str|
      invariant trimmed == WithoutSpaces(str[..i])
    {
      WithoutSpacesAppend(str[..i], [str[i]]);
      assert str[..i + 1] == str[..i] + [str[i]];
      if str[i] != ' ' {
        trimmed := trimmed + [str[i]];
      }
      i := i + 1;
    }
    assert str[..i] == str;
    NoSpacesLeft(str);
    SpacesCounted(str);
  }

  /** No space survives. */
  lemma {:induction false} NoSpacesLeft(s: string)
    ensures ' ' !in WithoutSpaces(s)
  {
    if s != [] {
      NoSpacesLeft(s[1..]);
    }
  }

  /** Every character other than a space is kept, as often as it occurs. */
  lemma {:induction false} OthersKept(s: string, c: char)
    requires c != ' '
    ensures multiset(WithoutSpaces(s))[c] == multiset(s)[c]
  {
    if s != [] {
      OthersKept(s[1..], c);
      assert s == [s[0]] + s[1..];
    }
  }

  /** The result is shorter by exactly the number of spaces. */
  lemma {:induction false} SpacesCounted(s: string)
    ensures |WithoutSpaces(s)| == |s| - multiset(s)[' ']
  {
    if s != [] {
      SpacesCounted(s[1..]);
      assert s == [s[0]] + s[1..];
    }
  }

  /** The length is kept exactly when there was no space to remove. */
  lemma LengthKeptIffNoSpaces(s: string)
    ensures |WithoutSpaces(s)| <= |s|
    ensures |WithoutSpaces(s)| == |s| <==> ' ' !in s
  {
    SpacesCounted(s);
  }

  /** A string without spaces is its own result. */
  lemma {:induction false} NoSpacesFixed(s: string)
    requires ' ' !in s
    ensures WithoutSpaces(s) == s
  {
    if s != [] {
      assert s[0] in s;
      assert forall k | 0 <= k < |s[1..]| :: s[1..][k] in s;
      NoSpacesFixed(s[1..]);
    }
  }

  /** Trimming twice is trimming once. */
  lemma TrimIdempotent(s: string)
    ensures WithoutSpaces(WithoutSpaces(s)) == WithoutSpaces(s)
  {
    NoSpacesLeft(s);
    NoSpacesFixed(WithoutSpaces(s));
  }

  /** Tabs and newlines are not spaces: "a\tb c\n" trims to "a\tbc\n". */
  lemma TrimExample()
    ensures WithoutSpaces("a\tb c\n") == "a\tbc\n"
  {
    assert "a\tb c\n"[1..] == "\tb c\n";
    assert "\tb c\n"[1..] == "b c\n";
    assert "b c\n"[1..] == " c\n";
    assert " c\n"[1..] == "c\n";
    assert "c\n"[1..] == "\n";
  }
}
