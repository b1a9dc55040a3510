/**
  Gender inference from a person's first name (`infer_gender`): the last
  letter of the first whitespace-delimited word, after trimming and
  lower-casing, decides between three labels.
 */
module GenderPredictor {
  import opened Text
  import opened Python

  datatype Gender = Femenino | Masculino | Desconocido

  /** The text `infer_gender` returns for each outcome. */
  function Label(g: Gender): string {
    match g
    case Femenino => "femenino"
    case Masculino => "masculino"
    case Desconocido => "desconocido"
  }

  /** The classification of a (lower-cased) last letter. */
  function ByLastLetter(c: char): Gender {
    if c == 'a' then Femenino else if c == 'o' then Masculino else Desconocido
  }

  /** The decision `infer_gender` takes on the stripped, lower-cased name. */
  function Classify(cleaned: string): Gender {
    if cleaned == [] then Desconocido
    else
      var first := FirstToken(cleaned);
      if EndsWithChar(first, 'a') then Femenino
      else if EndsWithChar(first, 'o') then Masculino
      else Desconocido
  }

  /** `infer_gender(name)`. */
  function InferGender(name: Value): (g: Gender)
    ensures !name.Str? ==> g == Desconocido
    ensures name.Str? && AllSpace(name.s) ==> g == Desconocido
  {
    if !name.Str? then Desconocido
    else
      StripEmptyIffAllSpace(name.s);
      Classify(Lower(Strip(name.s)))
  }

  /** Every label is one of the three the function documents. */
  lemma LabelsAreDocumented(name: Value)
    ensures Label(InferGender(name)) in {"femenino", "masculino", "desconocido"}
  {
  }

  lemma TrimLeftWordLayout(pre: string, w: string, post: string)
    requires AllSpace(pre)
    requires w != [] && NoSpace(w)
    ensures TrimLeft(pre + w + post) == w + post
  {
    assert pre + w + post == pre + (w + post);
    TrimLeftSkipsSpaces(pre, w + post);
  }

  lemma TrimRightWordLayout(w: string, post: string) returns (t: string)
    requires w != [] && NoSpace(w)
    requires post == [] || IsSpace(post[0])
    ensures TrimRight(w + post) == w + t
    ensures t == [] || IsSpace(t[0])
  {
    t := TrimRight(post);
    TrimRightSpec(post);
    assert post == t + post[|t|..];
    assert w + post == (w + t) + post[|t|..];
    TrimRightSkipsSpaces(w + t, post[|t|..]);
  }

  /** Stripping a name laid out as blanks, a word and a blank-led tail keeps the word at the front. */
  lemma StripWordLayout(pre: string, w: string, post: string) returns (t: string)
    requires AllSpace(pre)
    requires w != [] && NoSpace(w)
    requires post == [] || IsSpace(post[0])
    ensures Strip(pre + w + post) == w + t
    ensures t == [] || IsSpace(t[0])
  {
    TrimLeftWordLayout(pre, w, post);
    t := TrimRightWordLayout(w, post);
  }

  /** Lower-casing keeps the layout: a word stays a word and a blank-led tail stays blank-led. */
  lemma LowerWordLayout(w: string, t: string)
    requires w != [] && NoSpace(w)
    requires t == [] || IsSpace(t[0])
    ensures Lower(w + t) == Lower(w) + Lower(t)
    ensures NoSpace(Lower(w))
    ensures Lower(t) == [] || IsSpace(Lower(t)[0])
  {
    LowerAppend(w, t);
    forall i | 0 <= i < |w|
      ensures !IsSpace(Lower(w)[i])
    {
      CaseKeepsSpace(w[i]);
    }
    if t != [] {
      CaseKeepsSpace(t[0]);
    }
  }

  /** On a cleaned name that starts with a word, the decision is the word's last letter. */
  lemma ClassifyWord(w: string, t: string)
    requires w != [] && NoSpace(w)
    requires t == [] || IsSpace(t[0])
    ensures Classify(w + t) == ByLastLetter(w[|w| - 1])
  {
    TrimLeftSkipsSpaces([], w + t);
    assert [] + (w + t) == w + t;
    TakeWordStops(w, t);
  }

  /** Lower-casing a word followed by a blank-led tail decides by the word's last letter. */
  lemma ClassifyWordLayout(w: string, t: string)
    requires w != [] && NoSpace(w)
    requires t == [] || IsSpace(t[0])
    ensures Classify(Lower(w + t)) == ByLastLetter(LowerChar(w[|w| - 1]))
  {
    LowerWordLayout(w, t);
    ClassifyWord(Lower(w), Lower(t));
  }

  /**
    The characterisation: for a name `s` made of leading whitespace, a first
    word `w` and anything after it that starts with whitespace, the result
    is decided by the lower-cased last letter of `w` alone.
   */
  lemma InferFromFirstWord(s: string, pre: string, w: string, post: string)
    requires s == pre + w + post
    requires AllSpace(pre)
    requires w != [] && NoSpace(w)
    requires post == [] || IsSpace(post[0])
    ensures InferGender(Str(s)) == ByLastLetter(LowerChar(w[|w| - 1]))
  {
    var t := StripWordLayout(pre, w, post);
    ClassifyWordLayout(w, t);
  }

  /** Every name that is not blank splits into leading whitespace, a first word and the rest. */
  lemma SplitFirstWord(s: string) returns (pre: string, w: string, post: string)
    requires !AllSpace(s)
    ensures s == pre + w + post
    ensures AllSpace(pre)
    ensures w != [] && NoSpace(w)
    ensures post == [] || IsSpace(post[0])
  {
    var rest;
    pre, rest := SplitLeadingSpace(s);
    w, post := SplitWord(rest);
    assert s == pre + (w + post);
  }

  /** A name that is not blank is its leading whitespace followed by text starting with a non-space. */
  lemma SplitLeadingSpace(s: string) returns (pre: string, rest: string)
    requires !AllSpace(s)
    ensures s == pre + rest && AllSpace(pre)
    ensures rest != [] && !IsSpace(rest[0])
  {
    rest := TrimLeft(s);
    TrimLeftSpec(s);
    pre := s[..|s| - |rest|];
    assert s[..|s|] == s;
    assert rest != [];
  }

  /** Text starting with a non-space is a non-empty word followed by nothing or by whitespace. */
  lemma SplitWord(rest: string) returns (w: string, post: string)
    requires rest != [] && !IsSpace(rest[0])
    ensures rest == w + post
    ensures w != [] && NoSpace(w)
    ensures post == [] || IsSpace(post[0])
  {
    w := TakeWord(rest);
    TakeWordSpec(rest);
    post := rest[|w|..];
    assert rest == w + post;
  }

  /** Only the first word matters: `infer(tok + " " + rest) == infer(tok)`. */
  lemma InferIgnoresLaterWords(tok: string, rest: string)
    requires tok != [] && NoSpace(tok)
    ensures InferGender(Str(tok + " " + rest)) == InferGender(Str(tok))
  {
    InferFromFirstWord(tok + " " + rest, [], tok, " " + rest);
    InferFromFirstWord(tok, [], tok, []);
  }

  /** Padding a name with whitespace keeps its layout. */
  lemma PadLayout(a: string, s: string, b: string, pre: string, w: string, post: string)
    requires AllSpace(a) && AllSpace(b)
    requires s == pre + w + post && AllSpace(pre) && w != [] && NoSpace(w)
    requires post == [] || IsSpace(post[0])
    ensures a + s + b == (a + pre) + w + (post + b)
    ensures AllSpace(a + pre)
    ensures post + b == [] || IsSpace((post + b)[0])
  {
    var pre', post' := a + pre, post + b;
    forall i | 0 <= i < |pre'| ensures IsSpace(pre'[i]) {
      if i < |a| { assert pre'[i] == a[i]; } else { assert pre'[i] == pre[i - |a|]; }
    }
    if post != [] { assert post'[0] == post[0]; } else if b != [] { assert post'[0] == b[0]; }
  }

  /** Surrounding whitespace is irrelevant. */
  lemma InferIgnoresPadding(a: string, s: string, b: string)
    requires AllSpace(a) && AllSpace(b)
    ensures InferGender(Str(a + s + b)) == InferGender(Str(s))
  {
    if AllSpace(s) {
      assert AllSpace(a + s + b);
    } else {
      var pre, w, post := SplitFirstWord(s);
      InferFromFirstWord(s, pre, w, post);
      PadLayout(a, s, b, pre, w, post);
      InferFromFirstWord(a + s + b, a + pre, w, post + b);
    }
  }

  /** Lower-casing a name keeps its layout. */
  lemma LowerLayout(s: string, pre: string, w: string, post: string)
    requires s == pre + w + post && AllSpace(pre) && w != [] && NoSpace(w)
    requires post == [] || IsSpace(post[0])
    ensures Lower(s) == Lower(pre) + Lower(w) + Lower(post)
    ensures AllSpace(Lower(pre)) && Lower(w) != [] && NoSpace(Lower(w))
    ensures Lower(post) == [] || IsSpace(Lower(post)[0])
    ensures LowerChar(Lower(w)[|Lower(w)| - 1]) == LowerChar(w[|w| - 1])
  {
    LowerAppend(pre, w);
    LowerAppend(pre + w, post);
    CaseKeepsLayout(pre);
    CaseKeepsLayout(w);
    CaseKeepsLayout(post);
    CaseKeepsSpace(w[|w| - 1]);
  }

  /** Upper-casing a name keeps its layout. */
  lemma UpperLayout(s: string, pre: string, w: string, post: string)
    requires s == pre + w + post && AllSpace(pre) && w != [] && NoSpace(w)
    requires post == [] || IsSpace(post[0])
    ensures Upper(s) == Upper(pre) + Upper(w) + Upper(post)
    ensures AllSpace(Upper(pre)) && Upper(w) != [] && NoSpace(Upper(w))
    ensures Upper(post) == [] || IsSpace(Upper(post)[0])
    ensures LowerChar(Upper(w)[|Upper(w)| - 1]) == LowerChar(w[|w| - 1])
  {
    UpperAppend(pre, w);
    UpperAppend(pre + w, post);
    CaseKeepsLayout(pre);
    CaseKeepsLayout(w);
    CaseKeepsLayout(post);
    CaseKeepsSpace(w[|w| - 1]);
  }

  lemma InferLowered(s: string, pre: string, w: string, post: string)
    requires s == pre + w + post && AllSpace(pre) && w != [] && NoSpace(w)
    requires post == [] || IsSpace(post[0])
    ensures InferGender(Str(Lower(s))) == ByLastLetter(LowerChar(w[|w| - 1]))
  {
    var lp, lw, lq := Lower(pre), Lower(w), Lower(post);
    LowerLayout(s, pre, w, post);
    InferFromFirstWord(Lower(s), lp, lw, lq);
  }

  lemma InferUppered(s: string, pre: string, w: string, post: string)
    requires s == pre + w + post && AllSpace(pre) && w != [] && NoSpace(w)
    requires post == [] || IsSpace(post[0])
    ensures InferGender(Str(Upper(s))) == ByLastLetter(LowerChar(w[|w| - 1]))
  {
    var up, uw, uq := Upper(pre), Upper(w), Upper(post);
    UpperLayout(s, pre, w, post);
    InferFromFirstWord(Upper(s), up, uw, uq);
  }

  /** Letter case is irrelevant: lower- and upper-casing the name change nothing. */
  lemma InferIgnoresCase(s: string)
    ensures InferGender(Str(Lower(s))) == InferGender(Str(s))
    ensures InferGender(Str(Upper(s))) == InferGender(Str(s))
  {
    if AllSpace(s) {
      CaseKeepsLayout(s);
    } else {
      var pre, w, post := SplitFirstWord(s);
      InferFromFirstWord(s, pre, w, post);
      InferLowered(s, pre, w, post);
      InferUppered(s, pre, w, post);
    }
  }

  /** A first name ending in `a` is classified feminine. */
  lemma ExampleMariaLopez()
    ensures InferGender(Str("Maria Lopez")) == Femenino
  {
    InferFromFirstWord("Maria Lopez", [], "Maria", " Lopez");
  }

  /** A first name ending in `o` is classified masculine. */
  lemma ExamplePedroRuiz()
    ensures InferGender(Str("Pedro Ruiz")) == Masculino
  {
    InferFromFirstWord("Pedro Ruiz", [], "Pedro", " Ruiz");
  }

  /** "Carlos" ends in `s`, so the heuristic cannot decide. */
  lemma ExampleCarlosRuiz()
    ensures InferGender(Str("Carlos Ruiz")) == Desconocido
  {
    InferFromFirstWord("Carlos Ruiz", [], "Carlos", " Ruiz");
  }

  lemma ExampleAlexTran()
    ensures InferGender(Str("Alex Tran")) == Desconocido
  {
    InferFromFirstWord("Alex Tran", [], "Alex", " Tran");
  }
}
