/**
 * The product-categories list renderer's attribute parsing: the private `toBool` parser
 * that turns shortcode and block attributes into booleans, and the flags `render` reads
 * with it.
 */
module CategoryList {
  import opened PhpText

  /** The PHP values an attribute can hold, as far as `toBool` tells them apart. */
  datatype PhpValue = Bool(b: bool) | Str(s: string) | Number(n: int) | Null | Other

  /** The words `toBool` reads as true and as false, after trimming and lower-casing. */
  const TrueWords: seq<string> := ["true", "1", "yes", "on"]
  const FalseWords: seq<string> := ["false", "0", "no", "off"]

  /** What `toBool` compares against the word lists: the string trimmed, then lower-cased. */
  function Word(s: string): string {
    Lower(Trim(s))
  }

  /** True when `toBool` reads `v` itself and never falls back on its default. */
  predicate Recognised(v: PhpValue) {
    v.Bool? || (v.Str? && (Word(v.s) in TrueWords || Word(v.s) in FalseWords))
  }

  /**
   * `toBool`: a boolean is returned as it is, a string is read as one of the true or
   * false words, and anything else gives the default.
   */
  function ToBool(v: PhpValue, default: bool): (r: bool)
    ensures v.Bool? ==> r == v.b
    ensures v.Str? && Word(v.s) in TrueWords ==> r
    ensures v.Str? && Word(v.s) in FalseWords ==> !r
    ensures !Recognised(v) ==> r == default
  {
    WordListsDisjoint();
    if v.Bool? then v.b
    else if v.Str? && Word(v.s) in TrueWords then true
    else if v.Str? && Word(v.s) in FalseWords then false
    else default
  }

  /** No word is on both lists, so the order of the two tests does not matter. */
  lemma WordListsDisjoint()
    ensures forall w :: w in TrueWords ==> w !in FalseWords
  {
    forall w | w in TrueWords ensures w !in FalseWords {
      assert w == "true" || w == "1" || w == "yes" || w == "on";
    }
  }

  /** The default decides the result exactly when the value is not one `toBool` recognises. */
  lemma DefaultMatters(v: PhpValue)
    ensures ToBool(v, true) != ToBool(v, false) <==> !Recognised(v)
  {
  }

  /** Surrounding whitespace is ignored: padding a string with trim characters does not change its reading. */
  lemma ToBoolIgnoresPadding(a: string, s: string, b: string, default: bool)
    requires AllTrimChars(a) && AllTrimChars(b)
    ensures ToBool(Str(a + s + b), default) == ToBool(Str(s), default)
  {
    TrimAbsorbsPadding(a, s, b);
  }

  /** Case is ignored: two strings that lower-case alike are read alike. */
  lemma ToBoolIgnoresCase(s: string, t: string, default: bool)
    requires Lower(s) == Lower(t)
    ensures ToBool(Str(s), default) == ToBool(Str(t), default)
  {
    LowerTrimCommute(s);
    LowerTrimCommute(t);
  }

  /** A word already in lower case and without padding is its own `Word`. */
  lemma WordOfPlain(w: string)
    requires IsTrimmed(w) && Lower(w) == w
    ensures Word(w) == w
  {
    TrimOfTrimmed(w);
  }

  /** Padding and capitals aside, `w` reads as `ToBool` reads `plain`. */
  lemma ReadsLike(pre: string, w: string, post: string, plain: string, default: bool)
    requires AllTrimChars(pre) && AllTrimChars(post) && Lower(w) == Lower(plain)
    ensures ToBool(Str(pre + w + post), default) == ToBool(Str(plain), default)
  {
    ToBoolIgnoresPadding(pre, w, post, default);
    ToBoolIgnoresCase(w, plain, default);
  }

  /** Each true word, as written on the list, reads as true. */
  lemma TrueWordsRead(default: bool)
    ensures forall w :: w in TrueWords ==> ToBool(Str(w), default)
  {
    forall w | w in TrueWords ensures ToBool(Str(w), default) {
      assert w == "true" || w == "1" || w == "yes" || w == "on";
      WordOfPlain(w);
    }
  }

  /** Each false word, as written on the list, reads as false. */
  lemma FalseWordsRead(default: bool)
    ensures forall w :: w in FalseWords ==> !ToBool(Str(w), default)
  {
    forall w | w in FalseWords ensures !ToBool(Str(w), default) {
      assert w == "false" || w == "0" || w == "no" || w == "off";
      WordOfPlain(w);
    }
  }

  lemma Capitals()
    ensures Lower("YES") == Lower("yes") && Lower("Off") == Lower("off")
  {
  }

  /** Example: " YES " reads as true, whatever the default. */
  lemma PaddedYes(default: bool)
    ensures ToBool(Str(" YES "), default)
  {
    assert " YES " == " " + "YES" + " ";
    Capitals();
    ReadsLike(" ", "YES", " ", "yes", default);
    TrueWordsRead(default);
  }

  /** Example: " Off" followed by a newline reads as false, whatever the default. */
  lemma PaddedOff(default: bool)
    ensures !ToBool(Str(" Off\n"), default)
  {
    assert " Off\n" == " " + "Off" + "\n";
    Capitals();
    ReadsLike(" ", "Off", "\n", "off", default);
    FalseWordsRead(default);
  }

  /** Reading a result back gives it again: `toBool` of a `toBool` result is that result. */
  lemma ToBoolOfResult(v: PhpValue, d1: bool, d2: bool)
    ensures ToBool(Bool(ToBool(v, d1)), d2) == ToBool(v, d1)
  {
  }

  /** The flags `render` derives from its attributes. */
  datatype Flags = Flags(showHierarchy: bool, showEmpty: bool, isShortcode: bool, hideEmpty: bool, displayStyle: PhpValue)

  /** `wp_parse_args` with `is_shortcode => false` as the only default. */
  function ParseArgs(atts: map<string, PhpValue>): (r: map<string, PhpValue>)
    ensures r.Keys == atts.Keys + {"is_shortcode"}
    ensures forall k :: k in atts ==> r[k] == atts[k]
    ensures "is_shortcode" !in atts ==> r["is_shortcode"] == Bool(false)
  {
    if "is_shortcode" in atts then atts else atts["is_shortcode" := Bool(false)]
  }

  /** `Arr::get($atts, $key, $default)` on a flat key: the stored value, even null, or the default when absent. */
  function Attr(atts: map<string, PhpValue>, key: string, default: PhpValue): PhpValue {
    if key in atts then atts[key] else default
  }

  /**
   * The flags `render` reads: categories are shown as a hierarchy unless told otherwise,
   * empty categories are hidden unless told otherwise, and the list is a block rather
   * than a shortcode unless told otherwise; `hide_empty` is always the negation of
   * `show_empty`.
   */
  function RenderFlags(atts: map<string, PhpValue>): (f: Flags)
    ensures !Recognised(Attr(atts, "show_hierarchy", Null)) ==> f.showHierarchy
    ensures !Recognised(Attr(atts, "show_empty", Null)) ==> !f.showEmpty
    ensures !Recognised(Attr(atts, "is_shortcode", Null)) ==> !f.isShortcode
    ensures f.hideEmpty == !f.showEmpty
    ensures "display_style" !in atts ==> f.displayStyle == Str("list")
  {
    var args := ParseArgs(atts);
    var showEmpty := ToBool(Attr(args, "show_empty", Null), false);
    assert Attr(args, "is_shortcode", Null) == Attr(atts, "is_shortcode", Bool(false));
    Flags(ToBool(Attr(args, "show_hierarchy", Null), true), showEmpty,
          ToBool(Attr(args, "is_shortcode", Null), false), !showEmpty,
          Attr(args, "display_style", Str("list")))
  }

  /** With no attributes at all the list is a hierarchical block that hides empty categories. */
  lemma RenderFlagsDefaults()
    ensures RenderFlags(map[]) == Flags(true, false, false, true, Str("list"))
  {
  }

  /** A recognised attribute is read for what it says, whatever its default would have been. */
  lemma RenderFlagsRead(atts: map<string, PhpValue>)
    ensures "show_hierarchy" in atts && Recognised(atts["show_hierarchy"]) ==>
      RenderFlags(atts).showHierarchy == ToBool(atts["show_hierarchy"], false)
    ensures "show_empty" in atts && Recognised(atts["show_empty"]) ==>
      RenderFlags(atts).showEmpty == ToBool(atts["show_empty"], true)
  {
  }
}
