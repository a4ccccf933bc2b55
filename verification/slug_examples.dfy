/**
 * Worked examples of Articles.Slugify. Each step of the pipeline is checked
 * on its own piece of text, and the pieces are joined through the
 * concatenation lemmas of module Text.
 */
module SlugExamples {

  import opened Text
  import opened Articles

  lemma HelloPieces()
    ensures ToLower("Hello,") == "hello,"
    ensures KeepAllowed("hello,") == "hello"
    ensures ReplaceRunsFrom("hello", ' ', '-', false) == "hello"
    ensures ReplaceRunsFrom("hello", '-', '-', false) == "hello"
  {
  }

  lemma WorldPieces()
    ensures ToLower(" World!") == " world!"
    ensures KeepAllowed(" world!") == " world"
  {
  }

  lemma WorldRuns()
    ensures ReplaceRunsFrom(" world", ' ', '-', false) == "-world"
    ensures ReplaceRunsFrom("-world", '-', '-', false) == "-world"
  {
    assert ReplaceRunsFrom("world", ' ', '-', true) == "world";
    assert ReplaceRunsFrom("world", '-', '-', true) == "world";
  }

  /** "Hello, World!" becomes "hello-world". */
  lemma SlugifyHelloWorld()
    ensures Slugify("Hello," + " World!") == "hello" + "-world"
  {
    assert ToLower("Hello," + " World!") == "hello," + " world!" by {
      HelloPieces();
      WorldPieces();
      ToLowerConcat("Hello,", " World!");
    }
    assert KeepAllowed("hello," + " world!") == "hello" + " world" by {
      HelloPieces();
      WorldPieces();
      KeepAllowedConcat("hello,", " world!");
    }
    assert ReplaceRuns("hello" + " world", ' ', '-') == "hello" + "-world" by {
      HelloPieces();
      WorldRuns();
      ReplaceRunsConcat("hello", " world", ' ', '-', false);
    }
    assert ReplaceRuns("hello" + "-world", '-', '-') == "hello" + "-world" by {
      HelloPieces();
      WorldRuns();
      ReplaceRunsConcat("hello", "-world", '-', '-', false);
    }
    HelloWorldTrimLeft();
    HelloWorldTrimRight();
  }

  lemma HelloWorldTrimLeft()
    ensures TrimLeft("hello" + "-world") == "hello" + "-world"
  {
  }

  lemma HelloWorldTrimRight()
    ensures TrimRight("hello" + "-world") == "hello" + "-world"
  {
  }

  /** A run of spaces makes a single '-'. */
  lemma SlugifySpaces()
    ensures Slugify("a   b") == "a-b"
  {
    assert ToLower("a   b") == "a   b";
    assert KeepAllowed("a   b") == "a   b";
    assert ReplaceRuns("a   b", ' ', '-') == "a-b";
    assert ReplaceRuns("a-b", '-', '-') == "a-b";
    assert Trim("a-b") == "a-b";
  }

  lemma SpacedHyphenKept()
    ensures ToLower("a - b") == "a - b"
    ensures KeepAllowed("a - b") == "a - b"
  {
  }

  lemma SpacedHyphenRuns()
    ensures ReplaceRuns("a - b", ' ', '-') == "a---b"
    ensures ReplaceRuns("a---b", '-', '-') == "a-b"
  {
    assert ReplaceRunsFrom("- b", ' ', '-', true) == "--b";
    assert ReplaceRunsFrom("--b", '-', '-', true) == "b";
  }

  /** Spaces around a hyphen collapse with it into a single '-'. */
  lemma SlugifySpacedHyphen()
    ensures Slugify("a - b") == "a-b"
  {
    SpacedHyphenKept();
    SpacedHyphenRuns();
    assert Trim("a-b") == "a-b";
  }

  /** A tab is not a space: it is deleted, and the words run together. */
  lemma SlugifyTab()
    ensures Slugify("a\tb") == "ab"
  {
    assert ToLower("a\tb") == "a\tb";
    assert KeepAllowed("a\tb") == "ab";
    assert ReplaceRuns("ab", ' ', '-') == "ab";
    assert ReplaceRuns("ab", '-', '-') == "ab";
  }

  /** A title with no letter or digit gives the empty slug. */
  lemma SlugifyNoAlnum()
    ensures Slugify("") == ""
    ensures Slugify("-?!-") == ""
  {
    assert ToLower("-?!-") == "-?!-";
    assert KeepAllowed("-?!-") == "--";
    assert ReplaceRuns("--", ' ', '-') == "--";
    assert ReplaceRuns("--", '-', '-') == "-";
    assert Trim("-") == "";
  }
}
