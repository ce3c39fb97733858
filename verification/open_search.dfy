/**
  The OpenSearch providers (`OpenSearchSystem`): which provider files are
  loaded, which language a provider is used in, and the URL opened for a
  chosen result.

  Reading the provider directory and parsing a provider file are
  parameters: the directory listing is a sequence of file names and
  `parse` gives the parsed description of a file, or none when it cannot
  be read. The system's language names and `encodeURIComponent` are
  parameters too.
 */
module OpenSearch {
  import opened Common

  /** What a provider file describes. */
  datatype ProviderSpec = ProviderSpec(name: string, url: string, langs: seq<string>)

  /** A loaded provider: its description, its number, and the language chosen for it. */
  datatype OpenSearchProvider = OpenSearchProvider(spec: ProviderSpec, id: nat, lang: Option<string>)

  /** One entry of `getProviders`. */
  datatype ProviderEntry = ProviderEntry(id: nat, name: string)

  const LanguageField := "{language}"
  const TermsField := "{searchTerms}"

  /** The provider's URL has a language placeholder to fill in. */
  predicate NeedsLanguage(url: string) {
    Contains(url, LanguageField)
  }

  /** The language candidates, in preference order: the system's names, then English. */
  function Candidates(system: seq<string>): (r: seq<string>)
    ensures |r| == |system| + 1 && r[..|system|] == system && r[|system|] == "en"
  {
    system + ["en"]
  }

  /** The first candidate the provider lists, if any. */
  function FirstListed(cands: seq<string>, listed: seq<string>): (r: Option<string>)
    ensures r.None? <==> forall i :: 0 <= i < |cands| ==> cands[i] !in listed
    ensures r.Some? ==> exists i :: 0 <= i < |cands| && cands[i] == r.value && r.value in listed &&
                                    forall j :: 0 <= j < i ==> cands[j] !in listed
  {
    if |cands| == 0 then None
    else if cands[0] in listed then
      assert cands[0] == cands[0];
      Some(cands[0])
    else
      var r := FirstListed(cands[1..], listed);
      if r.Some? then
        var i :| 0 <= i < |cands[1..]| && cands[1..][i] == r.value && r.value in listed &&
                 forall j :: 0 <= j < i ==> cands[1..][j] !in listed;
        assert cands[i + 1] == r.value && forall j :: 0 <= j < i + 1 ==> cands[j] !in listed;
        r
      else
        assert forall i :: 1 <= i < |cands| ==> cands[i] == cands[1..][i - 1];
        r
  }

  /**
    What the language loop chooses: nothing when no candidate is listed;
    otherwise the first listed candidate that is a non-empty name, or the
    empty name when that is the only kind listed. Without an empty
    candidate this is the first listed one.
   */
  predicate IsChoice(lang: Option<string>, cands: seq<string>, listed: seq<string>) {
    && (lang.None? <==> FirstListed(cands, listed).None?)
    && (lang.Some? ==> lang.value in cands && lang.value in listed)
    && ("" !in cands ==> lang == FirstListed(cands, listed))
    && (lang.Some? && lang.value != "" ==>
          exists i :: 0 <= i < |cands| && cands[i] == lang.value &&
                      forall j :: 0 <= j < i ==> cands[j] == "" || cands[j] !in listed)
    && (lang == Some("") ==> forall i :: 0 <= i < |cands| && cands[i] != "" ==> cands[i] !in listed)
  }

  /** The choice is determined: two answers that both meet `IsChoice` are the same. */
  lemma ChoiceUnique(a: Option<string>, b: Option<string>, cands: seq<string>, listed: seq<string>)
    requires IsChoice(a, cands, listed) && IsChoice(b, cands, listed)
    ensures a == b
  {
    if a.Some? && a.value != "" {
      NonEmptyChoiceFixes(a, b, cands, listed);
    } else if b.Some? && b.value != "" {
      NonEmptyChoiceFixes(b, a, cands, listed);
    }
  }

  /** A non-empty name that meets `IsChoice` is the only answer that does. */
  lemma NonEmptyChoiceFixes(x: Option<string>, y: Option<string>, cands: seq<string>, listed: seq<string>)
    requires IsChoice(x, cands, listed) && IsChoice(y, cands, listed) && x.Some? && x.value != ""
    ensures y == x
  {
    var i :| 0 <= i < |cands| && cands[i] == x.value && forall j :: 0 <= j < i ==> cands[j] == "" || cands[j] !in listed;
    if y.Some? && y.value != "" {
      var k :| 0 <= k < |cands| && cands[k] == y.value && forall j :: 0 <= j < k ==> cands[j] == "" || cands[j] !in listed;
      assert !(k < i) && !(i < k);
    }
  }

  /**
    The language loop of `_checkSupportedProviderLanguage`: a listed
    candidate becomes the choice, and the search stops at the first choice
    that is a non-empty name (an empty name is false in JavaScript, so the
    search goes on past it).
   */
  method ChooseLanguage(cands: seq<string>, listed: seq<string>) returns (lang: Option<string>)
    ensures IsChoice(lang, cands, listed)
    ensures "" !in cands ==> lang == FirstListed(cands, listed)
  {
    lang := None;
    var i := 0;
    while i < |cands|
      invariant 0 <= i <= |cands|
      invariant lang.None? <==> forall j :: 0 <= j < i ==> cands[j] !in listed
      invariant lang.Some? ==> lang.value == "" && "" in listed && "" in cands[..i]
      invariant forall j :: 0 <= j < i && cands[j] != "" ==> cands[j] !in listed
    {
      if cands[i] in listed {
        lang := Some(cands[i]);
      }
      if lang.Some? && lang.value != "" {
        assert "" !in cands ==> forall j :: 0 <= j < i ==> cands[j] !in listed;
        FirstListedIs(cands, listed, i);
        return;
      }
      assert cands[..i + 1] == cands[..i] + [cands[i]];
      i := i + 1;
    }
  }

  /** A listed candidate with no listed one before it is the first listed. */
  lemma FirstListedIs(cands: seq<string>, listed: seq<string>, i: nat)
    requires i < |cands| && cands[i] in listed
    ensures (forall j :: 0 <= j < i ==> cands[j] !in listed) ==> FirstListed(cands, listed) == Some(cands[i])
  {
    var f := FirstListed(cands, listed);
    if forall j :: 0 <= j < i ==> cands[j] !in listed {
      var k :| 0 <= k < |cands| && cands[k] == f.value && f.value in listed &&
               forall j :: 0 <= j < k ==> cands[j] !in listed;
      assert !(k < i) && !(i < k);
    }
  }

  /**
    `_checkSupportedProviderLanguage`: a URL without a language placeholder
    is always supported (and no language is chosen); otherwise the provider
    is supported exactly when one of the candidates is listed.
   */
  method CheckSupportedLanguage(spec: ProviderSpec, system: seq<string>) returns (ok: bool, lang: Option<string>)
    ensures !NeedsLanguage(spec.url) ==> ok && lang.None?
    ensures NeedsLanguage(spec.url) ==> (ok <==> lang.Some?) && IsChoice(lang, Candidates(system), spec.langs)
    ensures NeedsLanguage(spec.url) && "" !in Candidates(system) ==> lang == FirstListed(Candidates(system), spec.langs)
    ensures ok <==> Supported(spec, system)
    ensures lang.Some? ==> lang.value in Candidates(system) && lang.value in spec.langs
  {
    if !NeedsLanguage(spec.url) {
      return true, None;
    }
    lang := ChooseLanguage(Candidates(system), spec.langs);
    ok := lang.Some?;
  }

  /** The language recorded for a loaded provider: the loop's choice when its URL needs one, none otherwise. */
  predicate LanguageChosen(p: OpenSearchProvider, system: seq<string>) {
    if NeedsLanguage(p.spec.url) then p.lang.Some? && IsChoice(p.lang, Candidates(system), p.spec.langs)
    else p.lang.None?
  }

  /** A provider can be used: no language is needed, or a candidate language is listed. */
  predicate Supported(spec: ProviderSpec, system: seq<string>) {
    !NeedsLanguage(spec.url) || exists c :: c in Candidates(system) && c in spec.langs
  }

  /**
    The descriptions `_refresh` ends up with, from the first `n` files:
    the enabled, readable and supported ones, in directory order.
   */
  function LoadedSpecs(files: seq<string>, n: nat, disabled: seq<string>, parse: string -> Option<ProviderSpec>,
                       system: seq<string>): (r: seq<ProviderSpec>)
    requires n <= |files|
    ensures |r| <= n
    ensures forall s :: s in r <==>
      exists k :: 0 <= k < n && files[k] !in disabled && parse(files[k]) == Some(s) && Supported(s, system)
  {
    if n == 0 then []
    else
      var earlier := LoadedSpecs(files, n - 1, disabled, parse, system);
      var f := files[n - 1];
      if f !in disabled && parse(f).Some? && Supported(parse(f).value, system) then earlier + [parse(f).value]
      else earlier
  }

  /**
    `_refresh` with the loading done in directory order: every enabled file
    that parses and whose language is supported becomes a provider, numbered
    by its position in the list.
   */
  method Refresh(files: seq<string>, disabled: seq<string>, parse: string -> Option<ProviderSpec>, system: seq<string>)
    returns (providers: seq<OpenSearchProvider>)
    ensures forall i :: 0 <= i < |providers| ==> providers[i].id == i
    ensures |providers| == |LoadedSpecs(files, |files|, disabled, parse, system)|
    ensures forall i :: 0 <= i < |providers| ==> providers[i].spec == LoadedSpecs(files, |files|, disabled, parse, system)[i]
    ensures forall i :: 0 <= i < |providers| ==> LanguageChosen(providers[i], system)
  {
    providers := [];
    var i := 0;
    while i < |files|
      invariant 0 <= i <= |files|
      invariant |providers| == |LoadedSpecs(files, i, disabled, parse, system)|
      invariant forall k :: 0 <= k < |providers| ==> providers[k].id == k
      invariant forall k :: 0 <= k < |providers| ==> providers[k].spec == LoadedSpecs(files, i, disabled, parse, system)[k]
      invariant forall k :: 0 <= k < |providers| ==> LanguageChosen(providers[k], system)
    {
      var f := files[i];
      if f !in disabled && parse(f).Some? {
        var spec := parse(f).value;
        var ok, lang := CheckSupportedLanguage(spec, system);
        if ok {
          assert LanguageChosen(OpenSearchProvider(spec, |providers|, lang), system);
          providers := providers + [OpenSearchProvider(spec, |providers|, lang)];
        }
      }
      i := i + 1;
    }
  }

  /**
    `getProviders`: each provider with its position as id, so every listed
    id is one `activateResult` accepts and selects the provider of that
    name, and every provider is listed under exactly one id.
   */
  method GetProviders(providers: seq<OpenSearchProvider>) returns (res: seq<ProviderEntry>)
    ensures |res| == |providers|
    ensures forall i :: 0 <= i < |res| ==> res[i] == ProviderEntry(i, providers[i].spec.name)
    ensures forall e :: e in res ==> ActivateResult(providers, e.id, [], s => s).Some? && providers[e.id].spec.name == e.name
    ensures forall i, j :: 0 <= i < j < |res| ==> res[i].id != res[j].id
  {
    res := [];
    var i := 0;
    while i < |providers|
      invariant 0 <= i <= |providers| && |res| == i
      invariant forall k :: 0 <= k < i ==> res[k] == ProviderEntry(k, providers[k].spec.name)
    {
      res := res + [ProviderEntry(i, providers[i].spec.name)];
      i := i + 1;
    }
  }

  /**
    The URL `activateResult` opens: the first terms placeholder becomes the
    encoded terms joined by spaces; then, if a language placeholder is
    present, the first one becomes the chosen language (JavaScript writes
    `undefined` when none was chosen).
   */
  function ResultUrl(url: string, terms: seq<string>, encode: string -> string, lang: Option<string>): (r: string)
  {
    var u := ReplaceFirst(url, TermsField, encode(Join(terms, " ")));
    if Contains(u, LanguageField) then ReplaceFirst(u, LanguageField, if lang.Some? then lang.value else "undefined")
    else u
  }

  /**
    `activateResult(id)`: the URL of provider `id` filled with the terms and
    its chosen language; an id past the end makes the lookup throw, and
    nothing is opened.
   */
  function ActivateResult(providers: seq<OpenSearchProvider>, id: nat, terms: seq<string>, encode: string -> string)
    : (r: Option<string>)
    ensures r.Some? <==> id < |providers|
    ensures r.Some? ==> r.value == ResultUrl(providers[id].spec.url, terms, encode, providers[id].lang)
  {
    if id < |providers| then Some(ResultUrl(providers[id].spec.url, terms, encode, providers[id].lang)) else None
  }

  /**
    For a template with one terms placeholder followed by one language
    placeholder, and no other brace before them, both are filled in place.
   */
  lemma {:induction false} ResultUrlFillsTemplate(pre: string, mid: string, post: string, terms: seq<string>,
                               encode: string -> string, lang: string)
    requires '{' !in pre && '{' !in mid && '{' !in encode(Join(terms, " "))
    ensures ResultUrl(pre + TermsField + mid + LanguageField + post, terms, encode, Some(lang)) ==
      pre + encode(Join(terms, " ")) + mid + lang + post
  {
    var e := encode(Join(terms, " "));
    var rest := mid + LanguageField + post;
    assert pre + TermsField + mid + LanguageField + post == pre + TermsField + rest;
    ReplaceFirstAfterPrefix(pre, TermsField, rest, e);
    var u := pre + e + rest;
    var head := pre + e + mid;
    assert '{' !in head;
    assert u == head + LanguageField + post;
    FindAfterPrefix(head, LanguageField, post);
    ReplaceFirstAfterPrefix(head, LanguageField, post, lang);
  }

  /** A template without a language placeholder only gets the terms filled in. */
  lemma ResultUrlWithoutLanguage(pre: string, post: string, terms: seq<string>, encode: string -> string, lang: Option<string>)
    requires '{' !in pre && !NeedsLanguage(pre + encode(Join(terms, " ")) + post)
    ensures ResultUrl(pre + TermsField + post, terms, encode, lang) == pre + encode(Join(terms, " ")) + post
  {
    ReplaceFirstAfterPrefix(pre, TermsField, post, encode(Join(terms, " ")));
  }
}
