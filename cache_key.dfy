/** The cache key `WeatherController#forecast` derives from an address:
    strip, downcase, `parameterize`, and the "weather_forecast_" prefix. */
module CacheKeys {
  import Text
  import Inflector

  const KeyPrefix := "weather_forecast_"

  /** `"weather_forecast_#{address.strip.downcase.parameterize}"`. */
  function CacheKey(address: string): string {
    KeyPrefix + Inflector.Parameterize(Text.Downcase(Text.Strip(address)))
  }

  /** Every key is the prefix followed by a slug. */
  lemma CacheKeyShape(address: string)
    ensures |CacheKey(address)| >= |KeyPrefix| && CacheKey(address)[..|KeyPrefix|] == KeyPrefix
    ensures Inflector.IsSlug(CacheKey(address)[|KeyPrefix|..])
  {
    var slug := Inflector.Parameterize(Text.Downcase(Text.Strip(address)));
    assert (KeyPrefix + slug)[|KeyPrefix|..] == slug;
  }

  /** Addresses that differ only in letter case or in white space around them
      share one cache key. */
  lemma CacheKeyIgnoresCaseAndOuterSpace(a: string, b: string, w1: string, w2: string)
    requires Text.Downcase(a) == Text.Downcase(b)
    requires forall i :: 0 <= i < |w1| ==> Text.IsSpace(w1[i])
    requires forall i :: 0 <= i < |w2| ==> Text.IsSpace(w2[i])
    ensures CacheKey(w1 + a + w2) == CacheKey(b)
  {
    Text.StripIgnoresOuterSpace(w1, a, w2);
    Text.DowncaseStrip(a);
    Text.DowncaseStrip(b);
  }

  /** The key is a prefix and a slug, so an address typed as the slug part of
      a key ("123-main-st-new-york-ny") shares the cache entry of the address
      that produced it. */
  lemma CacheKeyOfSlug(address: string)
    ensures CacheKey(CacheKey(address)[|KeyPrefix|..]) == CacheKey(address)
  {
    CacheKeyShape(address);
    var slug := CacheKey(address)[|KeyPrefix|..];
    assert CacheKey(address) == KeyPrefix + slug;
    SlugIsStrippedLower(slug);
    Inflector.SlugIsFixedPoint(slug);
  }

  /** A slug has no outer white space and no capital letter. */
  lemma SlugIsStrippedLower(slug: string)
    requires Inflector.IsSlug(slug)
    ensures Text.Strip(slug) == slug && Text.Downcase(slug) == slug
  {
    if slug != [] {
      assert Inflector.IsSlugChar(slug[0]) && Inflector.IsSlugChar(slug[|slug| - 1]);
      Text.TrimStartNoop(slug);
      Text.TrimEndNoop(slug);
    }
    assert forall i :: 0 <= i < |slug| ==> Text.Downcase(slug)[i] == slug[i] by {
      forall i | 0 <= i < |slug| ensures Text.Downcase(slug)[i] == slug[i] {
        assert Inflector.IsSlugChar(slug[i]);
      }
    }
  }
}

/** The cache key of the address used throughout the controller's tests,
    evaluated one word at a time: each literal step is its own small lemma, so
    that no proof has to unfold a long string literal. */
module CacheKeyExample {
  import Text
  import Inflector
  import CacheKeys

  const ExampleAddress := "123 Main St, New York, NY"
  const ExampleLowered := "123 main st, new york, ny"
  const ExampleSlug := "123-main-st-new-york-ny"

  lemma ExampleStrip()
    ensures Text.Strip(ExampleAddress) == ExampleAddress
  {
    assert ExampleAddress[0] == '1' && ExampleAddress[24] == 'Y';
    Text.TrimStartNoop(ExampleAddress);
    Text.TrimEndNoop(ExampleAddress);
  }

  lemma AddressPieces()
    ensures ExampleAddress == "123 " + ("Main " + ("St, " + ("New " + ("York, " + "NY"))))
  {
  }

  lemma LoweredPieces()
    ensures ExampleLowered == "123 " + ("main " + ("st, " + ("new " + ("york, " + "ny"))))
  {
  }

  /** `downcase` of a concatenation from the `downcase` of its parts. */
  lemma DowncasePair(a: string, b: string, la: string, lb: string)
    requires Text.Downcase(a) == la && Text.Downcase(b) == lb
    ensures Text.Downcase(a + b) == la + lb
  {
    Text.DowncaseAppend(a, b);
  }

  lemma DowncaseStreet()
    ensures Text.Downcase("123 ") == "123 " && Text.Downcase("Main ") == "main "
  {
  }

  lemma DowncaseSuffix()
    ensures Text.Downcase("St, ") == "st, "
  {
  }

  lemma DowncaseCity()
    ensures Text.Downcase("New ") == "new " && Text.Downcase("York, ") == "york, "
  {
  }

  lemma DowncaseState()
    ensures Text.Downcase("NY") == "ny"
  {
  }

  lemma ExampleDowncase()
    ensures Text.Downcase(ExampleAddress) == ExampleLowered
  {
    AddressPieces();
    LoweredPieces();
    DowncaseStreet();
    DowncaseSuffix();
    DowncaseCity();
    DowncaseState();
    var t1, l1 := "York, " + "NY", "york, " + "ny";
    DowncasePair("York, ", "NY", "york, ", "ny");
    var t2, l2 := "New " + t1, "new " + l1;
    DowncasePair("New ", t1, "new ", l1);
    var t3, l3 := "St, " + t2, "st, " + l2;
    DowncasePair("St, ", t2, "st, ", l2);
    var t4, l4 := "Main " + t3, "main " + l3;
    DowncasePair("Main ", t3, "main ", l3);
    DowncasePair("123 ", t4, "123 ", l4);
  }

  lemma LoweredWords()
    ensures ExampleLowered == "123" + (" " + ("main" + (" " + ("st" + (", " + ("new" + (" " + ("york" + (", " + "ny")))))))))
  {
  }

  lemma SlugWords()
    ensures ExampleSlug == "123" + ("-" + ("main" + ("-" + ("st" + ("-" + ("new" + ("-" + "york-ny")))))))
  {
  }

  lemma RunsTail()
    ensures Inflector.ReplaceRuns(", " + "ny", false) == "-ny"
  {
    Inflector.ReplaceRunsKeptPrefix("ny", "", false);
    assert "ny" + "" == "ny";
    Inflector.ReplaceRunsGap(", ", "ny", false);
  }

  lemma ExampleRuns()
    ensures Inflector.ReplaceRuns(ExampleLowered, false) == ExampleSlug
  {
    LoweredWords();
    RunsTail();
    var t1 := "york" + (", " + "ny");
    Inflector.ReplaceRunsKeptPrefix("york", ", " + "ny", false);
    assert Inflector.ReplaceRuns(t1, false) == "york-ny";
    var t2 := " " + t1;
    Inflector.ReplaceRunsGap(" ", t1, false);
    var t3 := "new" + t2;
    Inflector.ReplaceRunsKeptPrefix("new", t2, false);
    var t4 := ", " + t3;
    Inflector.ReplaceRunsGap(", ", t3, false);
    var t5 := "st" + t4;
    Inflector.ReplaceRunsKeptPrefix("st", t4, false);
    var t6 := " " + t5;
    Inflector.ReplaceRunsGap(" ", t5, false);
    var t7 := "main" + t6;
    Inflector.ReplaceRunsKeptPrefix("main", t6, false);
    var t8 := " " + t7;
    Inflector.ReplaceRunsGap(" ", t7, false);
    Inflector.ReplaceRunsKeptPrefix("123", t8, false);
    SlugWords();
  }

  lemma ExampleKeyText()
    ensures "weather_forecast_" + ExampleSlug == "weather_forecast_123-main-st-new-york-ny"
  {
  }

  lemma ExampleIsSlug()
    ensures Inflector.IsSlug(ExampleSlug)
  {
  }

  lemma ExampleParameterize()
    ensures Inflector.Parameterize(Text.Downcase(Text.Strip(ExampleAddress))) == ExampleSlug
  {
    ExampleStrip();
    ExampleDowncase();
    ExampleRuns();
    ExampleIsSlug();
    Inflector.SlugIsFixedPoint(ExampleSlug);
    Inflector.ReplaceRunsKeepsKept(ExampleSlug, false);
  }

  lemma KeyOfExample()
    ensures CacheKeys.CacheKey(ExampleAddress) == CacheKeys.KeyPrefix + ExampleSlug
  {
    ExampleParameterize();
  }

  /** "123 Main St, New York, NY" is cached under "weather_forecast_123-main-st-new-york-ny". */
  lemma CacheKeyExample()
    ensures CacheKeys.CacheKey(ExampleAddress) == "weather_forecast_123-main-st-new-york-ny"
  {
    KeyOfExample();
    ExampleKeyText();
  }
}
