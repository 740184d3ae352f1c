/** The description clean-up of the handler:
      d.replace(/<[^>]*>/g, '').substring(0, 100) */
module Markup {

  /** The index of the first `c` in `s`. */
  function IndexOf(s: string, c: char): (k: nat)
    requires c in s
    ensures k < |s| && s[k] == c && c !in s[..k]
  {
    if s[0] == c then 0
    else
      assert c in s[1..] by {
        var i :| 0 <= i < |s| && s[i] == c;
        assert s[1..][i - 1] == c;
      }
      var k := 1 + IndexOf(s[1..], c);
      assert s[..k] == [s[0]] + s[1..][..k - 1];
      k
  }

  /** One global pass of `/<[^>]*>/g` replaced by the empty string. The scan
      goes left to right; at a `<` the pattern matches exactly when some `>`
      follows, `[^>]*` runs up to the first such `>`, and the whole span is
      removed. Any other character, and a `<` with no `>` after it, is kept.
      The pass only removes, so the output is never longer than the input. */
  function StripTags(s: string): (r: string)
    ensures |r| <= |s|
    decreases |s|
  {
    if s == [] then []
    else if s[0] == '<' && '>' in s then StripTags(s[IndexOf(s, '>') + 1..])
    else [s[0]] + StripTags(s[1..])
  }

  /** `t` is `s` with some characters deleted: the rest keep their order. */
  ghost predicate IsSubsequence(t: string, s: string)
    decreases |s|
  {
    t == [] ||
    (s != [] && ((t[0] == s[0] && IsSubsequence(t[1..], s[1..])) || IsSubsequence(t, s[1..])))
  }

  /** Deleting a prefix of `s` first is still a deletion from `s`. */
  lemma {:induction false} SubsequenceOfSuffix(t: string, s: string, k: nat)
    requires k <= |s| && IsSubsequence(t, s[k..])
    ensures IsSubsequence(t, s)
    decreases k
  {
    if k > 0 {
      assert s[1..][k - 1..] == s[k..];
      SubsequenceOfSuffix(t, s[1..], k - 1);
    }
  }

  /** No `<` is followed, anywhere later, by a `>`: nothing in `t` looks like
      a tag any more. */
  ghost predicate TagFree(t: string)
  {
    forall i, j :: 0 <= i < j < |t| ==> !(t[i] == '<' && t[j] == '>')
  }

  /** `String.prototype.substring(0, n)`: the first `n` characters, or the
      whole string when it is shorter. Nothing is appended. */
  function Truncate(s: string, n: nat): (r: string)
    ensures r <= s
    ensures |r| == if |s| <= n then |s| else n
  {
    if |s| <= n then s else s[..n]
  }

  /** The character budget of a post's description. */
  const DescriptionLimit: nat := 100

  /** The description of a post: the tag-stripped text cut to the budget. */
  function NormalizeDescription(d: string): (r: string)
    ensures |r| <= DescriptionLimit && r <= StripTags(d)
  {
    Truncate(StripTags(d), DescriptionLimit)
  }

  /** A string without any `>` passes through unchanged. */
  lemma {:induction false} StripTagsKeepsWithoutClose(s: string)
    requires '>' !in s
    ensures StripTags(s) == s
    decreases |s|
  {
    if s != [] {
      assert '>' !in s[1..];
      StripTagsKeepsWithoutClose(s[1..]);
      assert s == [s[0]] + s[1..];
    }
  }

  /** The pass leaves nothing that looks like a tag. */
  lemma {:induction false} StripTagsIsTagFree(s: string)
    ensures TagFree(StripTags(s))
    decreases |s|
  {
    if s == [] {
    } else if s[0] == '<' && '>' in s {
      StripTagsIsTagFree(s[IndexOf(s, '>') + 1..]);
    } else if s[0] == '<' {
      StripTagsKeepsWithoutClose(s);
    } else {
      var rest := StripTags(s[1..]);
      StripTagsIsTagFree(s[1..]);
      var r := [s[0]] + rest;
      forall i, j | 0 <= i < j < |r|
        ensures !(r[i] == '<' && r[j] == '>')
      {
        if i > 0 {
          assert r[i] == rest[i - 1] && r[j] == rest[j - 1];
        }
      }
    }
  }

  /** A tag-free string is a fixed point of the pass. */
  lemma {:induction false} StripTagsFixesTagFree(t: string)
    requires TagFree(t)
    ensures StripTags(t) == t
    decreases |t|
  {
    if t != [] {
      if t[0] == '<' {
        assert '>' !in t by {
          forall j | 0 <= j < |t|
            ensures t[j] != '>'
          {
            if j > 0 {
              assert !(t[0] == '<' && t[j] == '>');
            }
          }
        }
        StripTagsKeepsWithoutClose(t);
      } else {
        var tail := t[1..];
        assert TagFree(tail) by {
          forall i, j | 0 <= i < j < |tail|
            ensures !(tail[i] == '<' && tail[j] == '>')
          {
            assert tail[i] == t[i + 1] && tail[j] == t[j + 1];
          }
        }
        StripTagsFixesTagFree(tail);
        assert t == [t[0]] + tail;
      }
    }
  }

  /** Stripping twice is stripping once. */
  lemma StripTagsIdempotent(s: string)
    ensures StripTags(StripTags(s)) == StripTags(s)
  {
    StripTagsIsTagFree(s);
    StripTagsFixesTagFree(StripTags(s));
  }

  /** Text without any `<` is returned unchanged. */
  lemma StripTagsKeepsPlainText(s: string)
    requires '<' !in s
    ensures StripTags(s) == s
  {
    assert TagFree(s);
    StripTagsFixesTagFree(s);
  }

  /** The pass only removes characters: the output is the input with some
      characters deleted and the others kept in order. */
  lemma {:induction false} StripTagsDeletes(s: string)
    ensures IsSubsequence(StripTags(s), s)
    decreases |s|
  {
    if s == [] {
    } else if s[0] == '<' && '>' in s {
      var k := IndexOf(s, '>');
      StripTagsDeletes(s[k + 1..]);
      SubsequenceOfSuffix(StripTags(s), s, k + 1);
    } else {
      var r := StripTags(s);
      StripTagsDeletes(s[1..]);
      assert r[0] == s[0] && r[1..] == StripTags(s[1..]);
    }
  }

  /** Every character of the output comes from the input, as often at most. */
  lemma {:induction false} StripTagsShrinks(s: string)
    ensures multiset(StripTags(s)) <= multiset(s)
    decreases |s|
  {
    if s == [] {
    } else if s[0] == '<' && '>' in s {
      var k := IndexOf(s, '>');
      StripTagsShrinks(s[k + 1..]);
      assert s == s[..k + 1] + s[k + 1..];
      assert multiset(s) == multiset(s[..k + 1]) + multiset(s[k + 1..]);
    } else {
      StripTagsShrinks(s[1..]);
      assert s == [s[0]] + s[1..];
      assert multiset(s) == multiset([s[0]]) + multiset(s[1..]);
    }
  }

  /** What a post's description is: at most 100 characters, a prefix of the
      tag-stripped text (so no ellipsis is ever added), all of it when that
      text fits, nothing tag-like, and never longer than the raw text. */
  lemma NormalizeDescriptionSpec(d: string)
    ensures var r := NormalizeDescription(d);
      |r| <= DescriptionLimit && r <= StripTags(d) && |r| <= |d| && TagFree(r)
    ensures |StripTags(d)| <= DescriptionLimit ==> NormalizeDescription(d) == StripTags(d)
    ensures |StripTags(d)| > DescriptionLimit ==> |NormalizeDescription(d)| == DescriptionLimit
  {
    var t := StripTags(d);
    var r := NormalizeDescription(d);
    StripTagsIsTagFree(d);
    forall i, j | 0 <= i < j < |r|
      ensures !(r[i] == '<' && r[j] == '>')
    {
      assert r[i] == t[i] && r[j] == t[j];
    }
  }

  /** Normalising a normalised description changes nothing. */
  lemma NormalizeDescriptionIdempotent(d: string)
    ensures NormalizeDescription(NormalizeDescription(d)) == NormalizeDescription(d)
  {
    var r := NormalizeDescription(d);
    NormalizeDescriptionSpec(d);
    StripTagsFixesTagFree(r);
  }

  /** A character other than `<` is kept. */
  lemma StripTagsKeepsChar(c: char, s: string)
    requires c != '<'
    ensures StripTags([c] + s) == [c] + StripTags(s)
  {
    assert ([c] + s)[1..] == s;
  }

  /** A `<`, then text with no `>`, then a `>` is removed as one tag. */
  lemma StripTagsDropsTag(tag: string, s: string)
    requires |tag| >= 2 && tag[0] == '<' && tag[|tag| - 1] == '>' && '>' !in tag[..|tag| - 1]
    ensures StripTags(tag + s) == StripTags(s)
  {
    var t := tag + s;
    assert t[..|tag|] == tag;
    assert t[..|tag| - 1] == tag[..|tag| - 1];
    assert IndexOf(t, '>') == |tag| - 1;
    assert t[|tag|..] == s;
  }

  /** Text with no `<` in front of the rest is kept as it is. */
  lemma {:induction false} StripTagsKeepsPlainPrefix(w: string, s: string)
    requires '<' !in w
    ensures StripTags(w + s) == w + StripTags(s)
    decreases |w|
  {
    if w != [] {
      assert '<' !in w[1..];
      assert w + s == [w[0]] + (w[1..] + s);
      StripTagsKeepsChar(w[0], w[1..] + s);
      StripTagsKeepsPlainPrefix(w[1..], s);
      calc {
        StripTags(w + s);
        [w[0]] + StripTags(w[1..] + s);
        [w[0]] + (w[1..] + StripTags(s));
        ([w[0]] + w[1..]) + StripTags(s);
        { assert [w[0]] + w[1..] == w; }
        w + StripTags(s);
      }
    } else {
      assert w + s == s && w + StripTags(s) == StripTags(s);
    }
  }

  /** A worked case: the tags of a small HTML fragment vanish and the text,
      shorter than the budget, is kept whole with no marker added. */
  lemma StripsSimpleFragment()
    ensures NormalizeDescription("<p>Hello <b>World</b></p>") == "Hello World"
  {
    var close := "</b>" + ("</p>" + "");
    var world := "World" + close;
    var bold := "<b>" + world;
    var hello := "Hello " + bold;
    assert "<p>Hello <b>World</b></p>" == "<p>" + hello;
    calc {
      StripTags("<p>" + hello);
      { StripTagsDropsTag("<p>", hello); }
      StripTags(hello);
      { StripTagsKeepsPlainPrefix("Hello ", bold); }
      "Hello " + StripTags(bold);
      { StripTagsDropsTag("<b>", world); }
      "Hello " + StripTags(world);
      { StripTagsKeepsPlainPrefix("World", close); }
      "Hello " + ("World" + StripTags(close));
      { StripTagsDropsTag("</b>", "</p>" + ""); }
      "Hello " + ("World" + StripTags("</p>" + ""));
      { StripTagsDropsTag("</p>", ""); }
      "Hello " + ("World" + StripTags(""));
      "Hello World";
    }
  }

  /** A `>` with no `<` before it, and a `<` with no `>` after it, are plain
      text to the pattern and stay in the description. */
  lemma KeepsStrayBrackets()
    ensures NormalizeDescription("1 > 0") == "1 > 0"
    ensures NormalizeDescription("0 < 1") == "0 < 1"
  {
  }
}
