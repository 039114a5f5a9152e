/**
 * The page hook: the settings record it keeps, the `wgsl_update_settings`
 * listener that overwrites it, and the wrapper it installs in place of
 * GPUDevice.createShaderModule. The original entry point is a parameter of
 * the wrapper, so that what it receives can be observed.
 */
module Hook {
  import opened Wrappers
  import opened Configuration
  import opened Newlines
  import opened Replace

  /**
   * A shader-module descriptor. `code` is `Some(text)` when the descriptor's
   * `code` property is a string and `None` when it is missing or of another
   * type; `rest` stands for every other property.
   */
  datatype Descriptor<Rest> = Descriptor(code: Option<string>, rest: Rest)

  /** The hook's settings record. */
  datatype Settings = Settings(findText: string, replaceText: string, logShaderWGSL: Option<bool>)

  /** The wrapper rewrites `code` when the normalised find text is non-empty and occurs in the normalised code. */
  predicate Rewrites(findText: string, code: string)
  {
    Normalize(findText) != [] && Includes(Normalize(code), Normalize(findText))
  }

  /** A descriptor whose `code` is a string that the wrapper rewrites. */
  predicate Rewritten<Rest>(findText: string, descriptor: Option<Descriptor<Rest>>)
  {
    descriptor.Some? && descriptor.value.code.Some? && Rewrites(findText, descriptor.value.code.value)
  }

  /** The shader source the wrapper substitutes. */
  function NewCode(findText: string, replaceText: string, code: string): string
  {
    ReplaceAll(Normalize(code), Normalize(findText), Normalize(replaceText))
  }

  /**
   * The descriptor that the original entry point receives: the very same
   * descriptor unless it is rewritten, and otherwise one that differs from
   * it in `code` alone.
   */
  function Intercept<Rest>(findText: string, replaceText: string, descriptor: Option<Descriptor<Rest>>): (passed: Option<Descriptor<Rest>>)
    ensures !Rewritten(findText, descriptor) ==> passed == descriptor
    ensures Rewritten(findText, descriptor) ==>
      passed == Some(descriptor.value.(code := Some(NewCode(findText, replaceText, descriptor.value.code.value))))
    ensures passed.Some? <==> descriptor.Some?
    ensures passed.Some? ==> passed.value.rest == descriptor.value.rest
  {
    match descriptor
    case None => descriptor
    case Some(d) =>
      match d.code
      case None => descriptor
      case Some(code) =>
        var originalCode := Normalize(code);
        var find := Normalize(findText);
        if find != [] && Includes(originalCode, find) then
          Some(d.(code := Some(ReplaceAll(originalCode, find, Normalize(replaceText)))))
        else descriptor
  }

  /** An empty find text passes the descriptor through; its code is not even normalised. */
  lemma EmptyFindPassesThrough<Rest>(replaceText: string, descriptor: Option<Descriptor<Rest>>)
    ensures Intercept("", replaceText, descriptor) == descriptor
  {
  }

  /** A find text that does not occur in the normalised code passes the descriptor through. */
  lemma NoMatchPassesThrough<Rest>(findText: string, replaceText: string, code: string, rest: Rest)
    requires !Includes(Normalize(code), Normalize(findText))
    ensures Intercept(findText, replaceText, Some(Descriptor(Some(code), rest))) == Some(Descriptor(Some(code), rest))
  {
  }

  /** A missing descriptor, or one whose code is not a string, is passed through. */
  lemma NonStringPassesThrough<Rest>(findText: string, replaceText: string, descriptor: Option<Descriptor<Rest>>)
    requires descriptor.None? || descriptor.value.code.None?
    ensures Intercept(findText, replaceText, descriptor) == descriptor
  {
  }

  /**
   * On a match, and for a replacement text without `$`, the new code is the
   * single-pass, left-to-right, non-overlapping literal replacement of the
   * normalised find text by the normalised replacement in the normalised code.
   */
  lemma RewriteIsLiteral(findText: string, replaceText: string, code: string)
    requires Rewrites(findText, code) && '$' !in replaceText
    ensures NewCode(findText, replaceText, code)
      == LiteralReplace(Normalize(code), Normalize(findText), Normalize(replaceText))
  {
    if '$' in Normalize(replaceText) {
      NormalizeChars(replaceText, '$');
    }
  }

  /** The rewritten code is itself normalised: it holds no CR. */
  lemma RewriteIsNormalised(findText: string, replaceText: string, code: string)
    ensures Normalize(NewCode(findText, replaceText, code)) == NewCode(findText, replaceText, code)
  {
    var r := NewCode(findText, replaceText, code);
    if CR in r {
      ReplaceAllChars(Normalize(code), Normalize(findText), Normalize(replaceText), CR);
    }
    NormalizeFixedPoint(r);
  }

  /**
   * On a match, a literal replacement whose normalised length differs from
   * that of the find text always changes the code.
   */
  lemma RewriteChangesCode(findText: string, replaceText: string, code: string)
    requires Rewrites(findText, code) && '$' !in replaceText
    requires |Normalize(replaceText)| != |Normalize(findText)|
    ensures NewCode(findText, replaceText, code) != Normalize(code)
  {
    var s, f, r := Normalize(code), Normalize(findText), Normalize(replaceText);
    RewriteIsLiteral(findText, replaceText, code);
    LiteralLength(s, f, r, 0);
    OccurrencesIndexOf(s, f, 0);
    ScaleDistinct(OccurrencesFrom(s, f, 0), |f|, |r|);
  }

  /** Replacing the find text by itself leaves the normalised code as it was. */
  lemma SameTextKeepsCode(text: string, code: string)
    requires Rewrites(text, code) && '$' !in text
    ensures NewCode(text, text, code) == Normalize(code)
  {
    RewriteIsLiteral(text, text, code);
    LiteralSelf(Normalize(code), Normalize(text), 0);
    assert Normalize(code)[0..] == Normalize(code);
  }

  lemma ScaleDistinct(k: nat, a: nat, b: nat)
    requires k > 0 && a != b
    ensures k * a != k * b
  {
    if a < b {
      assert k * b == k * a + k * (b - a);
    } else {
      assert k * a == k * b + k * (a - b);
    }
  }

  /**
   * Texts free of carriage returns, a non-empty find text and a replacement
   * without `$`: the descriptor passed on carries the literal replacement,
   * which is the code itself when the find text does not occur.
   */
  lemma PlainRewrite<Rest>(findText: string, replaceText: string, code: string, rest: Rest)
    requires CR !in findText && CR !in replaceText && CR !in code
    requires findText != [] && '$' !in replaceText
    ensures Intercept(findText, replaceText, Some(Descriptor(Some(code), rest)))
      == Some(Descriptor(Some(LiteralReplace(code, findText, replaceText)), rest))
  {
    NormalizeFixedPoint(code);
    NormalizeFixedPoint(findText);
    NormalizeFixedPoint(replaceText);
    if !Includes(code, findText) {
      IndexOfSpec(code, findText, 0);
      assert NoMatchIn(code, findText, 0, |code|);
      LiteralSkip(code, findText, replaceText, 0, |code|);
      assert code[0..|code|] == code;
      assert LiteralFrom(code, findText, replaceText, |code|) == [];
      assert LiteralReplace(code, findText, replaceText) == code;
    }
  }

  /** Renaming an identifier: both occurrences of `foo` become `bar`. */
  lemma RenameExample<Rest>(rest: Rest)
    ensures Intercept("foo", "bar", Some(Descriptor(Some("fn foo() { foo(); }"), rest)))
      == Some(Descriptor(Some("fn bar() { bar(); }"), rest))
  {
    LiteralRenameExample();
    RenameCodeHasNoCr();
    PlainRewrite("foo", "bar", "fn foo() { foo(); }", rest);
  }

  /** The code of the rename example holds no carriage return. */
  lemma RenameCodeHasNoCr()
    ensures CR !in "fn foo() { foo(); }"
  {
    assert "fn foo() { foo(); }"[3] == 'f';
  }

  /** A find text written with CR LF matches code written with LF only. */
  lemma CrLfFindExample<Rest>(rest: Rest)
    ensures Intercept("a\r\nb", "x", Some(Descriptor(Some("a\nb"), rest))) == Some(Descriptor(Some("x"), rest))
  {
    assert Normalize("a\r\nb") == "a\nb";
    NormalizeFixedPoint("a\nb");
    NormalizeFixedPoint("x");
    assert MatchAt("a\nb", "a\nb", 0);
  }

  /** The settings after a `wgsl_update_settings` event carrying `detail`, if any. */
  function Updated(settings: Settings, detail: Option<Config>): (r: Settings)
    ensures detail.None? ==> r == settings
    ensures detail.Some? ==> r.logShaderWGSL == detail.value.logShaderWGSL
    ensures detail.Some? && detail.value.findText.Some? ==> r.findText == detail.value.findText.value
    ensures detail.Some? && detail.value.findText.None? ==> r.findText == ""
    ensures detail.Some? && detail.value.replaceText.Some? ==> r.replaceText == detail.value.replaceText.value
    ensures detail.Some? && detail.value.replaceText.None? ==> r.replaceText == ""
  {
    match detail
    case None => settings
    case Some(d) => Settings(OrEmpty(d.findText), OrEmpty(d.replaceText), d.logShaderWGSL)
  }

  /** An event with a detail overwrites every field: the previous record is forgotten. */
  lemma UpdateForgetsPrevious(s1: Settings, s2: Settings, detail: Config)
    ensures Updated(s1, Some(detail)) == Updated(s2, Some(detail))
  {
  }

  /** The hook's mutable settings record together with the wrapper that reads it. */
  class PageHook {
    var findText: string
    var replaceText: string
    var logShaderWGSL: Option<bool>

    /** The settings record as a value. */
    function Current(): Settings
      reads this
    {
      Settings(findText, replaceText, logShaderWGSL)
    }

    /**
     * Reads the find and replace texts from the page's two data attributes
     * (a missing attribute gives ''); logging starts switched on.
     */
    constructor (wgslFind: Option<string>, wgslReplace: Option<string>)
      ensures Current() == Settings(OrEmpty(wgslFind), OrEmpty(wgslReplace), Some(true))
    {
      findText := OrEmpty(wgslFind);
      replaceText := OrEmpty(wgslReplace);
      logShaderWGSL := Some(true);
    }

    /** The `wgsl_update_settings` listener. */
    method OnUpdateSettings(detail: Option<Config>)
      modifies this
      ensures Current() == Updated(old(Current()), detail)
    {
      if detail.Some? {
        findText := OrEmpty(detail.value.findText);
        replaceText := OrEmpty(detail.value.replaceText);
        logShaderWGSL := detail.value.logShaderWGSL;
      }
    }

    /**
     * The wrapper installed as createShaderModule: it calls `original` once,
     * with the descriptor Intercept gives for the current settings, and
     * returns exactly what `original` returns.
     */
    method CreateShaderModule<Rest, R>(original: Option<Descriptor<Rest>> -> R, descriptor: Option<Descriptor<Rest>>)
      returns (result: R)
      ensures !Rewritten(findText, descriptor) ==> result == original(descriptor)
      ensures Rewritten(findText, descriptor) ==>
        result == original(Some(descriptor.value.(code := Some(NewCode(findText, replaceText, descriptor.value.code.value)))))
    {
      result := original(Intercept(findText, replaceText, descriptor));
    }
  }
}
