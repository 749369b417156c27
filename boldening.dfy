/** Bold escalation of normalised identifiers and the Helvetica fix-up of fonts.py. */
module Boldening {
  import opened Results
  import opened Text
  import opened FontNames

  datatype BoldenError =
    | FontIsExtrabold      // FontIsExtraboldException: no bolder version exists
    | UnexpectedModifiers  // the `assert modifiers == "Italic"` fails

  /**
   * The modifiers of the next bolder font in `_bolden`, "" standing for the
   * regular font a light one becomes.
   */
  function BolderModifiers(modifiers: string): Result<string, BoldenError> {
    if Contains(modifiers, "Extrabold") then Err(FontIsExtrabold)
    else if Contains(modifiers, "Light") then Ok(if Contains(modifiers, "Italic") then "Italic" else "")
    else if Contains(modifiers, "Semibold") then Ok(Replace(modifiers, "Semibold", "Bold"))
    else if Contains(modifiers, "Bold") then Ok(Replace(modifiers, "Bold", "Extrabold"))
    else if modifiers == "Italic" then Ok("BoldItalic")
    else Err(UnexpectedModifiers)
  }

  /** `_bolden`: the next bolder identifier of a normalised identifier; the family before the first '-' is kept. */
  function Bolden(identifier: string): (r: Result<string, BoldenError>)
    ensures r.Ok? ==> SplitOnce(identifier, '-').0 <= r.value
  {
    var parts := SplitOnce(identifier, '-');
    match parts.1
    case None => Ok(Join(identifier, "Bold"))
    case Some(modifiers) =>
      match BolderModifiers(modifiers)
      case Ok(bolder) => Ok(Join(parts.0, bolder))
      case Err(e) => Err(e)
  }

  /** An identifier with a '-' is boldened through its modifiers. */
  lemma BoldenSplit(f: string, m: string)
    requires '-' !in f
    ensures Bolden(f + ['-'] + m) == match BolderModifiers(m)
                                     case Ok(bolder) => Ok(Join(f, bolder))
                                     case Err(e) => Err(e)
  {
    SplitOnceOf(f, '-', m);
  }

  /**
   * The table of `_bolden` on the modifiers `_disambiguate_modifiers`
   * produces: light to regular, semibold to bold, bold to extrabold, italic
   * to bold italic, and no bolder font after extrabold.
   */
  lemma BolderLight()
    ensures BolderModifiers("Light") == Ok("")
    ensures BolderModifiers("LightItalic") == Ok("Italic")
  {
  }

  lemma BolderSemibold()
    ensures BolderModifiers("Semibold") == Ok("Bold")
  {
    assert Replace("Semibold", "Semibold", "Bold") == "Bold" by {
      ReplaceFromAbsent("Semibold", "Semibold", "Bold", 8);
    }
  }

  lemma BolderSemiboldItalic()
    ensures BolderModifiers("SemiboldItalic") == Ok("BoldItalic")
  {
    MissingChar("SemiboldItalic", "Light", 'L');
    assert Replace("SemiboldItalic", "Semibold", "Bold") == "BoldItalic" by {
      assert "SemiboldItalic"[8..] == "Italic";
      ReplaceFromAbsent("SemiboldItalic", "Semibold", "Bold", 8);
    }
  }

  lemma BolderBold()
    ensures BolderModifiers("Bold") == Ok("Extrabold")
  {
    assert Replace("Bold", "Bold", "Extrabold") == "Extrabold" by {
      ReplaceFromAbsent("Bold", "Bold", "Extrabold", 4);
    }
  }

  lemma BolderBoldItalic()
    ensures BolderModifiers("BoldItalic") == Ok("ExtraboldItalic")
  {
    MissingChar("BoldItalic", "Light", 'L');
    MissingChar("BoldItalic", "Semibold", 'S');
    assert Replace("BoldItalic", "Bold", "Extrabold") == "ExtraboldItalic" by {
      assert "BoldItalic"[4..] == "Italic";
      ReplaceFromAbsent("BoldItalic", "Bold", "Extrabold", 4);
    }
  }

  lemma BolderItalic()
    ensures BolderModifiers("Italic") == Ok("BoldItalic")
  {
  }

  lemma BolderExtrabold()
    ensures BolderModifiers("Extrabold") == Err(FontIsExtrabold)
    ensures BolderModifiers("ExtraboldItalic") == Err(FontIsExtrabold)
  {
  }

  /** One escalation step: "F-M" becomes "F-B" when the modifiers M have the bolder version B ("F" when B is regular). */
  lemma BoldenStep(f: string, m: string, b: string)
    requires '-' !in f && m != "" && BolderModifiers(m) == Ok(b)
    ensures Bolden(Join(f, m)) == Ok(Join(f, b))
  {
    BoldenSplit(f, m);
  }

  /** "F-M" fails with the error of its modifiers M when they have no bolder version. */
  lemma BoldenStuck(f: string, m: string, e: BoldenError)
    requires '-' !in f && m != "" && BolderModifiers(m) == Err(e)
    ensures Bolden(Join(f, m)) == Err(e)
  {
    BoldenSplit(f, m);
  }

  /** Regular, Bold, Extrabold, then no bolder font: "F" -> "F-Bold" -> "F-Extrabold" -> exception. */
  lemma RegularEscalation(f: string)
    requires '-' !in f
    ensures Bolden(f) == Ok(Join(f, "Bold"))
    ensures Bolden(Join(f, "Bold")) == Ok(Join(f, "Extrabold"))
    ensures Bolden(Join(f, "Extrabold")) == Err(FontIsExtrabold)
  {
    BolderBold();
    BoldenStep(f, "Bold", "Extrabold");
    BolderExtrabold();
    BoldenStuck(f, "Extrabold", FontIsExtrabold);
  }

  /** The italic chain: "F-Italic" -> "F-BoldItalic" -> "F-ExtraboldItalic" -> exception. */
  lemma ItalicEscalation(f: string)
    requires '-' !in f
    ensures Bolden(Join(f, "Italic")) == Ok(Join(f, "BoldItalic"))
    ensures Bolden(Join(f, "BoldItalic")) == Ok(Join(f, "ExtraboldItalic"))
    ensures Bolden(Join(f, "ExtraboldItalic")) == Err(FontIsExtrabold)
  {
    BolderItalic();
    BoldenStep(f, "Italic", "BoldItalic");
    BolderBoldItalic();
    BoldenStep(f, "BoldItalic", "ExtraboldItalic");
    BolderExtrabold();
    BoldenStuck(f, "ExtraboldItalic", FontIsExtrabold);
  }

  /**
   * Every identifier assembled from a family without '-' and the modifiers
   * `_disambiguate_modifiers` produces can be boldened unless its weight is
   * already extrabold, and never reaches the failing assertion.
   */
  lemma BoldenCanonical(f: string, modifiers: string)
    requires '-' !in f
    ensures Bolden(Join(f, DisambiguateModifiers(modifiers))).Ok? <==> Weight(Lower(modifiers)) != "Extrabold"
    ensures Bolden(Join(f, DisambiguateModifiers(modifiers))) != Err(UnexpectedModifiers)
  {
    var w := Weight(Lower(modifiers));
    var m := DisambiguateModifiers(modifiers);
    WeightPrecedence(Lower(modifiers));
    if m == "" {
    } else if m == "Italic" {
      BolderItalic();
      BoldenStep(f, m, "BoldItalic");
    } else if m == "Light" || m == "LightItalic" {
      BolderLight();
      BoldenStep(f, m, if m == "Light" then "" else "Italic");
    } else if m == "Semibold" {
      BolderSemibold();
      BoldenStep(f, m, "Bold");
    } else if m == "SemiboldItalic" {
      BolderSemiboldItalic();
      BoldenStep(f, m, "BoldItalic");
    } else if m == "Bold" {
      BolderBold();
      BoldenStep(f, m, "Extrabold");
    } else if m == "BoldItalic" {
      BolderBoldItalic();
      BoldenStep(f, m, "ExtraboldItalic");
    } else {
      assert m == "Extrabold" || m == "ExtraboldItalic";
      BolderExtrabold();
      BoldenStuck(f, m, FontIsExtrabold);
    }
  }

  /** `_handle_helvetica`: reportlab calls Helvetica's italic "Oblique". */
  function HandleHelvetica(identifier: string): (r: string)
    ensures r != identifier <==> identifier == "Helvetica-Italic" || identifier == "Helvetica-BoldItalic"
    ensures identifier == "Helvetica-Italic" ==> r == "Helvetica-Oblique"
    ensures identifier == "Helvetica-BoldItalic" ==> r == "Helvetica-BoldOblique"
  {
    if identifier == "Helvetica-Italic" then "Helvetica-Oblique"
    else if identifier == "Helvetica-BoldItalic" then "Helvetica-BoldOblique"
    else identifier
  }

  /** Applying the fix-up twice changes nothing more. */
  lemma HandleHelveticaIdempotent(identifier: string)
    ensures HandleHelvetica(HandleHelvetica(identifier)) == HandleHelvetica(identifier)
  {
  }

  /**
   * The modifiers "Italic-Italic" of a doubled TeX italic name reach the
   * failing assertion of `_bolden`.
   */
  lemma BoldenTeXItalicFails()
    ensures Bolden(DisambiguateIdentifier("CMTI10-Italic")) == Err(UnexpectedModifiers)
  {
    calc {
      Bolden(DisambiguateIdentifier("CMTI10-Italic"));
    == { DisambiguateTeXItalic(); DoubledItalicParts(); }
      Bolden("ComputerModernSerif" + ['-'] + "Italic-Italic");
    == { BoldenSplit("ComputerModernSerif", "Italic-Italic"); BolderDoubledItalic(); }
      Err(UnexpectedModifiers);
    }
  }

  lemma DoubledItalicParts()
    ensures Join("ComputerModernSerif-Italic", "Italic") == "ComputerModernSerif" + ['-'] + "Italic-Italic"
  {
    assert "ComputerModernSerif-Italic" == "ComputerModernSerif" + "-Italic";
  }

  /** "Italic-Italic" has no weight and is not "Italic" itself. */
  lemma BolderDoubledItalic()
    ensures BolderModifiers("Italic-Italic") == Err(UnexpectedModifiers)
  {
    var m := "Italic-Italic";
    MissingChar(m, "Extrabold", 'E');
    MissingChar(m, "Light", 'L');
    MissingChar(m, "Semibold", 'S');
    MissingChar(m, "Bold", 'B');
    assert m != "Italic" by { assert |m| != |"Italic"|; }
  }

  /** Boldening Helvetica's italic and fixing it up gives reportlab's bold oblique. */
  lemma BoldHelveticaItalic()
    ensures Bolden("Helvetica-Italic").Ok?
    ensures HandleHelvetica(Bolden("Helvetica-Italic").value) == "Helvetica-BoldOblique"
  {
    assert Join("Helvetica", "Italic") == "Helvetica-Italic";
    assert Join("Helvetica", "BoldItalic") == "Helvetica-BoldItalic";
    BolderItalic();
    BoldenStep("Helvetica", "Italic", "BoldItalic");
  }
}
