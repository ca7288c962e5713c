/**
 Image references: parsing, printing, and exactly when the two are inverse.
 */
module ImageReference {
  import opened Wrappers
  import opened Text

  const DEFAULT_REGISTRY: string := "registry-1.docker.io"
  const DEFAULT_TAG: string := "latest"
  const DIGEST_PREFIX: string := "sha256:"

  datatype ImageReference = ImageReference(registry: string, repository: string, reference: string) {
    predicate IsDigest() {
      DIGEST_PREFIX <= reference
    }

    // The name part of the printed form.
    function Name(): string {
      if registry == DEFAULT_REGISTRY then repository else registry + "/" + repository
    }

    function Display(): string {
      Name() + ":" + reference
    }
  }

  datatype ParseError = EmptyReference | UnsupportedDigest | EmptyRepository

  // ------------------------------------------------------------------ trimming

  // The Unicode White_Space property.
  predicate IsWhitespace(c: char) {
    var n := c as int;
    || 0x9 <= n <= 0xD || n == 0x20 || n == 0x85 || n == 0xA0 || n == 0x1680 || 0x2000 <= n <= 0x200A
    || n == 0x2028 || n == 0x2029 || n == 0x202F || n == 0x205F || n == 0x3000
  }

  function TrimStart(s: string): (t: string)
    ensures t == "" || !IsWhitespace(t[0])
  {
    if s != "" && IsWhitespace(s[0]) then TrimStart(s[1..]) else s
  }

  function TrimEnd(s: string): (t: string)
    ensures t == "" || !IsWhitespace(t[|t| - 1])
  {
    if s != "" && IsWhitespace(s[|s| - 1]) then TrimEnd(s[..|s| - 1]) else s
  }

  lemma {:induction false} TrimStartIsSuffix(s: string)
    ensures |TrimStart(s)| <= |s| && TrimStart(s) == s[|s| - |TrimStart(s)|..]
  {
    if s == "" || !IsWhitespace(s[0]) {
    } else {
      TrimStartIsSuffix(s[1..]);
    }
  }

  lemma {:induction false} TrimEndIsPrefix(s: string)
    ensures TrimEnd(s) <= s
  {
    if s == "" || !IsWhitespace(s[|s| - 1]) {
    } else {
      TrimEndIsPrefix(s[..|s| - 1]);
    }
  }

  function Trim(s: string): (t: string)
    ensures t == "" || (!IsWhitespace(t[0]) && !IsWhitespace(t[|t| - 1]))
  {
    TrimEndIsPrefix(TrimStart(s));
    TrimEnd(TrimStart(s))
  }

  lemma {:induction false} TrimStartKeeps(s: string, c: char)
    requires !IsWhitespace(c)
    ensures c in TrimStart(s) <==> c in s
  {
    if s == "" || !IsWhitespace(s[0]) {
    } else {
      TrimStartKeeps(s[1..], c);
      assert s == [s[0]] + s[1..];
    }
  }

  lemma {:induction false} TrimEndKeeps(s: string, c: char)
    requires !IsWhitespace(c)
    ensures c in TrimEnd(s) <==> c in s
  {
    if s == "" || !IsWhitespace(s[|s| - 1]) {
    } else {
      TrimEndKeeps(s[..|s| - 1], c);
      assert s == s[..|s| - 1] + [s[|s| - 1]];
    }
  }

  lemma TrimKeepsAt(s: string)
    ensures '@' in Trim(s) <==> '@' in s
  {
    TrimStartKeeps(s, '@');
    TrimEndKeeps(TrimStart(s), '@');
  }

  // ------------------------------------------------------------------ parsing

  // The name and the tag or digest of a trimmed reference.
  function SplitReference(input: string): Result<(string, string), ParseError> {
    match Find(input, '@')
    case Some(at) =>
      var digest := input[at + 1..];
      if DIGEST_PREFIX <= digest then Ok((input[..at], digest)) else Err(UnsupportedDigest)
    case None =>
      match FindLast(input, ':')
      case Some(colon) =>
        var before, after := input[..colon], input[colon + 1..];
        if '/' in after then Ok((input, DEFAULT_TAG)) else Ok((before, after))
      case None => Ok((input, DEFAULT_TAG))
  }

  predicate LooksLikeRegistry(component: string) {
    '.' in component || ':' in component || component == "localhost"
  }

  // The registry and the repository of a name.
  function SplitName(name: string): (string, string) {
    match Find(name, '/')
    case Some(slash) =>
      var first := name[..slash];
      if LooksLikeRegistry(first) then (first, name[slash + 1..]) else (DEFAULT_REGISTRY, name)
    case None => (DEFAULT_REGISTRY, "library/" + name)
  }

  function FromParts(name: string, reference: string): Result<ImageReference, ParseError> {
    var (registry, repository) := SplitName(name);
    if repository == "" then Err(EmptyRepository) else Ok(ImageReference(registry, repository, reference))
  }

  function Parse(input: string): Result<ImageReference, ParseError> {
    var input := Trim(input);
    if input == "" then Err(EmptyReference)
    else
      match SplitReference(input)
      case Err(e) => Err(e)
      case Ok((name, reference)) => FromParts(name, reference)
  }

  // ------------------------------------------------------------------ digests

  predicate IsTag(reference: string) {
    && ':' !in reference && '/' !in reference && '@' !in reference
    && (reference == "" || !IsWhitespace(reference[|reference| - 1]))
  }

  lemma DefaultTagIsTag()
    ensures IsTag(DEFAULT_TAG)
  {
  }

  lemma DigestHasColon(reference: string)
    requires DIGEST_PREFIX <= reference
    ensures ':' in reference
  {
    assert reference[6] == ':';
  }

  // Without an `@`, a trimmed reference splits into a name it starts with and a tag.
  lemma SplitsIntoTag(t: string)
    requires '@' !in t && (t == "" || !IsWhitespace(t[|t| - 1]))
    ensures SplitReference(t).Ok?
    ensures var (name, reference) := SplitReference(t).value; name <= t && IsTag(reference)
  {
    DefaultTagIsTag();
    var colon := FindLast(t, ':');
    if colon.Some? {
      var after := t[colon.value + 1..];
      assert forall c <- after :: c in t;
      assert after != "" ==> after[|after| - 1] == t[|t| - 1];
    }
  }

  lemma ParsedReference(input: string)
    requires Parse(input).Ok?
    ensures var parts := SplitReference(Trim(input));
            parts.Ok? && Parse(input) == FromParts(parts.value.0, parts.value.1)
    ensures Parse(input).value.reference == SplitReference(Trim(input)).value.1
  {
  }

  // A successful parse gives a digest exactly when the input has an `@`.
  lemma DigestExactly(input: string)
    requires Parse(input).Ok?
    ensures Parse(input).value.IsDigest() <==> '@' in input
  {
    ParsedReference(input);
    TrimKeepsAt(input);
    var t, reference := Trim(input), Parse(input).value.reference;
    if '@' !in t {
      SplitsIntoTag(t);
      if DIGEST_PREFIX <= reference {
        DigestHasColon(reference);
      }
    }
  }

  // ------------------------------------------------------------------ printing and parsing again

  // A repository that, printed without its registry, is read as one: it starts with a namespace, not
  // with whitespace or with what looks like a registry.
  predicate HasNamespace(repository: string) {
    var slash := Find(repository, '/');
    && slash.Some?
    && !IsWhitespace(repository[0])
    && !LooksLikeRegistry(repository[..slash.value])
  }

  // What makes a printed reference parse to itself: it is a tag, and a repository of the default
  // registry, which is printed without the registry, has a namespace.
  predicate Canonical(r: ImageReference) {
    !r.IsDigest() && (r.registry == DEFAULT_REGISTRY ==> HasNamespace(r.repository))
  }

  // A successful parse without an `@` gives a tag, and a name that starts the trimmed input.
  lemma ParsedParts(input: string) returns (name: string, reference: string)
    requires Parse(input).Ok? && '@' !in input
    ensures Parse(input) == FromParts(name, reference) && IsTag(reference)
    ensures name <= Trim(input) && '@' !in name
  {
    var t := Trim(input);
    TrimKeepsAt(input);
    SplitsIntoTag(t);
    ParsedReference(input);
    var parts := SplitReference(t).value;
    name, reference := parts.0, parts.1;
    assert forall c <- name :: c in t;
  }

  lemma {:induction false} TrimStartBeforeColon(name: string, reference: string)
    ensures TrimStart(name + ":" + reference) == TrimStart(name) + ":" + reference
  {
    if name == "" || !IsWhitespace(name[0]) {
    } else {
      assert (name + ":" + reference)[1..] == name[1..] + ":" + reference;
      TrimStartBeforeColon(name[1..], reference);
    }
  }

  lemma SplitJoined(name: string, reference: string)
    requires IsTag(reference) && '@' !in name
    ensures SplitReference(name + ":" + reference) == Ok((name, reference))
  {
    var t := name + ":" + reference;
    FindLastUnique(name, ':', reference);
    assert t == name + [':'] + reference;
    assert t[..|name|] == name && t[|name| + 1..] == reference;
  }

  // Parsing a name and a tag joined by a colon.
  lemma ParseJoined(name: string, reference: string)
    requires IsTag(reference) && '@' !in name
    ensures Parse(name + ":" + reference) == FromParts(TrimStart(name), reference)
  {
    var trimmed := TrimStart(name);
    var t := trimmed + ":" + reference;
    TrimStartBeforeColon(name, reference);
    assert t[|t| - 1] == if reference == "" then ':' else reference[|reference| - 1];
    assert Trim(name + ":" + reference) == t;
    TrimStartKeeps(name, '@');
    SplitJoined(trimmed, reference);
  }

  // The part of a trimmed string after its first `@` is shorter than what follows the colon, when
  // the name before the colon has no `@`.
  lemma AfterAtIsShorter(name: string, reference: string)
    requires '@' !in name
    ensures var t := Trim(name + ":" + reference);
            Find(t, '@').Some? ==> |t| - Find(t, '@').value - 1 < |reference|
  {
    var s := name + ":" + reference;
    var u := TrimStart(s);
    var t := TrimEnd(u);
    var at := Find(t, '@');
    TrimStartIsSuffix(s);
    TrimEndIsPrefix(u);
    if at.Some? {
      var i := |s| - |u| + at.value;
      assert s[i] == u[at.value] == t[at.value] == '@';
      assert i > |name|;
    }
  }

  // A digest printed after a colon never parses to the same reference.
  lemma DigestsDoNotReturn(r: ImageReference)
    requires r.IsDigest() && '@' !in r.Name()
    ensures Parse(r.Display()) != Ok(r)
  {
    var s := r.Display();
    if Parse(s).Ok? {
      var t := Trim(s);
      ParsedReference(s);
      DigestHasColon(r.reference);
      AfterAtIsShorter(r.Name(), r.reference);
      if '@' !in t {
        SplitsIntoTag(t);
      }
    }
  }

  // ------------------------------------------------------------------ names

  // What a successful parse makes of a trimmed name. A registry is either the default one or the
  // first component of the name.
  lemma NameParts(name: string)
    ensures var (registry, repository) := SplitName(name);
            || (registry == DEFAULT_REGISTRY && repository == name && '/' in name)
            || (registry == DEFAULT_REGISTRY && repository == "library/" + name && '/' !in name)
            || (name == registry + "/" + repository && '/' !in registry && LooksLikeRegistry(registry))
  {
  }

  // The first component of a name, when it is a registry, splits off again.
  lemma SplitRegistryName(registry: string, repository: string)
    requires '/' !in registry && LooksLikeRegistry(registry)
    ensures SplitName(registry + "/" + repository) == (registry, repository)
  {
    var name := registry + "/" + repository;
    FindUnique(registry, '/', repository);
    assert name == registry + ['/'] + repository;
    assert name[..|registry|] == registry && name[|registry| + 1..] == repository;
  }

  lemma SplitLibraryName(name: string)
    ensures SplitName("library/" + name) == (DEFAULT_REGISTRY, "library/" + name)
  {
    FindUnique("library", '/', name);
    assert "library/" + name == "library" + ['/'] + name;
    assert ("library/" + name)[..7] == "library";
  }

  lemma NameHasNoAt(name: string, reference: string)
    requires '@' !in name && FromParts(name, reference).Ok?
    ensures '@' !in FromParts(name, reference).value.Name()
  {
    NameParts(name);
  }

  // A name that splits into the default registry and a given repository, whether or not that
  // repository has whitespace before it, is the repository itself.
  lemma TrimmedNameReturns(repository: string)
    requires repository != ""
    requires SplitName(TrimStart(repository)) == (DEFAULT_REGISTRY, repository)
    ensures TrimStart(repository) == repository
  {
    var trimmed := TrimStart(repository);
    NameParts(trimmed);
    TrimStartIsSuffix(repository);
    assert ("library/" + trimmed)[0] == 'l';
  }

  lemma NamespaceExactly(repository: string)
    requires repository != ""
    ensures HasNamespace(repository)
       <==> !IsWhitespace(repository[0]) && SplitName(repository) == (DEFAULT_REGISTRY, repository)
  {
    var slash := Find(repository, '/');
    if slash.None? {
      assert |SplitName(repository).1| == |repository| + 8;
    } else if LooksLikeRegistry(repository[..slash.value]) {
      assert |SplitName(repository).1| < |repository|;
    }
  }

  lemma TagRoundTrip(name: string, reference: string)
    requires '@' !in name && IsTag(reference) && (name == "" || !IsWhitespace(name[0]))
    requires FromParts(name, reference).Ok?
    ensures var r := FromParts(name, reference).value;
            Parse(r.Display()) == Ok(r) <==> Canonical(r)
  {
    var r := FromParts(name, reference).value;
    NameParts(name);
    NameHasNoAt(name, reference);
    ParseJoined(r.Name(), reference);
    if r.IsDigest() {
      DigestHasColon(reference);
    }
    if r.registry != DEFAULT_REGISTRY {
      SplitRegistryName(r.registry, r.repository);
    } else if Parse(r.Display()) == Ok(r) {
      TrimmedNameReturns(r.repository);
      NamespaceExactly(r.repository);
    } else if Canonical(r) {
      NamespaceExactly(r.repository);
    }
  }

  // For every input that parses, printing the result and parsing it again gives the same reference
  // if and only if the reference is canonical.
  lemma RoundTripsExactly(input: string)
    requires Parse(input).Ok?
    ensures var r := Parse(input).value;
            Parse(r.Display()) == Ok(r) <==> Canonical(r)
  {
    var r := Parse(input).value;
    if '@' in input {
      DigestExactly(input);
      ParsedReference(input);
      TrimKeepsAt(input);
      var parts := SplitReference(Trim(input)).value;
      NameHasNoAt(parts.0, parts.1);
      DigestsDoNotReturn(r);
    } else {
      var name, reference := ParsedParts(input);
      TagRoundTrip(name, reference);
    }
  }

  // In particular every tag reference that does not spell out the default registry survives: ports,
  // missing tags, extra colons and surrounding whitespace included.
  lemma TagReferencesRoundTrip(input: string)
    requires Parse(input).Ok? && '@' !in input
    requires !(DEFAULT_REGISTRY + "/" <= Trim(input))
    ensures Parse(Parse(input).value.Display()) == Parse(input)
  {
    var name, reference := ParsedParts(input);
    var r := Parse(input).value;
    NameParts(name);
    SplitLibraryName(name);
    if r.IsDigest() {
      DigestHasColon(reference);
    }
    assert name == r.registry + "/" + r.repository ==> r.registry + "/" <= name;
    RoundTripsExactly(input);
  }

  // ------------------------------------------------------------------ the documented forms

  // A string that trimming leaves alone.
  predicate IsTrimmed(s: string) {
    s != "" && !IsWhitespace(s[0]) && !IsWhitespace(s[|s| - 1])
  }

  // The same without a digest.
  predicate IsTrimmedName(s: string) {
    IsTrimmed(s) && '@' !in s
  }

  lemma ParseTrimmed(t: string)
    requires IsTrimmed(t)
    ensures match SplitReference(t)
            case Err(e) => Parse(t) == Err(e)
            case Ok((name, reference)) => Parse(t) == FromParts(name, reference)
  {
  }

  lemma UntaggedName(name: string)
    requires IsTrimmedName(name)
    requires FindLast(name, ':').Some? ==> '/' in name[FindLast(name, ':').value + 1..]
    ensures Parse(name) == FromParts(name, DEFAULT_TAG)
  {
    ParseTrimmed(name);
  }

  // `alpine` and `alpine:3.19`.
  lemma BareNameForms(name: string, tag: string)
    requires IsTrimmedName(name) && '/' !in name && IsTag(tag)
    ensures ':' !in name ==> Parse(name) == Ok(ImageReference("registry-1.docker.io", "library/" + name, "latest"))
    ensures Parse(name + ":" + tag) == Ok(ImageReference("registry-1.docker.io", "library/" + name, tag))
    ensures ImageReference("registry-1.docker.io", "library/" + name, tag).Display() == "library/" + name + ":" + tag
  {
    if ':' !in name {
      UntaggedName(name);
    }
    ParseJoined(name, tag);
  }

  // `library/alpine` and `library/alpine:latest`.
  lemma NamespaceForms(namespace: string, name: string, tag: string)
    requires IsTrimmedName(namespace + "/" + name) && '/' !in namespace && IsTag(tag)
    requires !('.' in namespace || ':' in namespace || namespace == "localhost")
    ensures var repository := namespace + "/" + name;
            && (':' !in name ==> Parse(repository) == Ok(ImageReference("registry-1.docker.io", repository, "latest")))
            && Parse(repository + ":" + tag) == Ok(ImageReference("registry-1.docker.io", repository, tag))
            && ImageReference("registry-1.docker.io", repository, tag).Display() == repository + ":" + tag
  {
    var repository := namespace + "/" + name;
    FindUnique(namespace, '/', name);
    assert repository == namespace + ['/'] + name && repository[..|namespace|] == namespace;
    if ':' !in name {
      UntaggedName(repository);
    }
    ParseJoined(repository, tag);
  }

  // The last colon of a name whose repository has none is in the registry, before the slash.
  lemma ColonBeforeSlash(registry: string, repository: string)
    requires ':' !in repository
    ensures var name := registry + "/" + repository;
            var colon := FindLast(name, ':');
            colon.Some? ==> '/' in name[colon.value + 1..]
  {
    var name := registry + "/" + repository;
    var colon := FindLast(name, ':');
    if colon.Some? {
      assert forall i :: |registry| < i < |name| ==> name[i] == repository[i - |registry| - 1];
      assert name[colon.value + 1..][|registry| - colon.value - 1] == '/';
    }
  }

  // `ghcr.io/owner/repo` and `ghcr.io/owner/repo:tag`, where the registry can have a port.
  lemma RegistryForms(registry: string, repository: string, tag: string)
    requires IsTrimmedName(registry + "/" + repository) && '/' !in registry && repository != "" && IsTag(tag)
    requires '.' in registry || ':' in registry || registry == "localhost"
    ensures var name := registry + "/" + repository;
            && (':' !in repository ==> Parse(name) == Ok(ImageReference(registry, repository, "latest")))
            && Parse(name + ":" + tag) == Ok(ImageReference(registry, repository, tag))
            && (registry != "registry-1.docker.io" ==>
                  ImageReference(registry, repository, tag).Display() == name + ":" + tag)
  {
    var name := registry + "/" + repository;
    SplitRegistryName(registry, repository);
    if ':' !in repository {
      ColonBeforeSlash(registry, repository);
      UntaggedName(name);
    }
    ParseJoined(name, tag);
  }

  lemma DefaultHasDot()
    ensures '.' in "registry-1.docker.io"
  {
    assert "registry-1.docker.io"[10] == '.';
  }

  // The first component of a name is its registry exactly if it has a dot or a colon or is `localhost`.
  lemma RegistryExactly(first: string, rest: string, tag: string)
    requires IsTrimmedName(first + "/" + rest) && '/' !in first && rest != "" && IsTag(tag)
    ensures var r := Parse(first + "/" + rest + ":" + tag);
            && r.Ok? && r.value.reference == tag
            && (r.value.registry == first <==> '.' in first || ':' in first || first == "localhost")
            && (if r.value.registry == first then r.value.repository == rest
                else r.value.registry == "registry-1.docker.io" && r.value.repository == first + "/" + rest)
  {
    if '.' in first || ':' in first || first == "localhost" {
      RegistryForms(first, rest, tag);
      assert Parse(first + "/" + rest + ":" + tag) == Ok(ImageReference(first, rest, tag));
    } else {
      NamespaceForms(first, rest, tag);
      DefaultHasDot();
      assert Parse(first + "/" + rest + ":" + tag)
          == Ok(ImageReference("registry-1.docker.io", first + "/" + rest, tag));
    }
  }

  lemma SplitDigest(name: string, digest: string)
    requires '@' !in name
    ensures SplitReference(name + "@" + digest)
         == if DIGEST_PREFIX <= digest then Ok((name, digest)) else Err(UnsupportedDigest)
  {
    var t := name + "@" + digest;
    FindUnique(name, '@', digest);
    assert t == name + ['@'] + digest;
    assert t[..|name|] == name && t[|name| + 1..] == digest;
  }

  // `repo@sha256:abcd`; any other digest is refused.
  lemma DigestForms(name: string, digest: string)
    requires '@' !in name && (name == "" || !IsWhitespace(name[0]))
    requires digest == "" || !IsWhitespace(digest[|digest| - 1])
    ensures Parse(name + "@" + digest)
         == if DIGEST_PREFIX <= digest then FromParts(name, digest) else Err(UnsupportedDigest)
  {
    var t := name + "@" + digest;
    assert t[0] == if name == "" then '@' else name[0];
    assert t[|t| - 1] == if digest == "" then '@' else digest[|digest| - 1];
    ParseTrimmed(t);
    SplitDigest(name, digest);
  }

  // ------------------------------------------------------------------ every input

  // What a name stands for, together with a tag or digest.
  ghost predicate IsReferenceTo(r: Result<ImageReference, ParseError>, name: string, reference: string) {
    && ('/' !in name ==> r == Ok(ImageReference("registry-1.docker.io", "library/" + name, reference)))
    && forall first, rest :: name == first + "/" + rest && '/' !in first ==>
         r == if !('.' in first || ':' in first || first == "localhost") then
                Ok(ImageReference("registry-1.docker.io", name, reference))
              else if rest == "" then Err(EmptyRepository)
              else Ok(ImageReference(first, rest, reference))
  }

  lemma FromPartsExactly(name: string, reference: string)
    ensures IsReferenceTo(FromParts(name, reference), name, reference)
  {
    forall first, rest | name == first + "/" + rest && '/' !in first
      ensures FromParts(name, reference)
           == if !('.' in first || ':' in first || first == "localhost") then
                Ok(ImageReference("registry-1.docker.io", name, reference))
              else if rest == "" then Err(EmptyRepository)
              else Ok(ImageReference(first, rest, reference))
    {
      FindUnique(first, '/', rest);
      assert name == first + ['/'] + rest;
      assert name[..|first|] == first && name[|first| + 1..] == rest;
    }
  }

  lemma ParsesToDigest(name: string, digest: string)
    requires IsTrimmed(name + "@" + digest) && '@' !in name
    ensures var r := Parse(name + "@" + digest);
            if "sha256:" <= digest then IsReferenceTo(r, name, digest) else r == Err(UnsupportedDigest)
  {
    ParseTrimmed(name + "@" + digest);
    SplitDigest(name, digest);
    FromPartsExactly(name, digest);
  }

  lemma SplitTag(name: string, tag: string)
    requires '@' !in name + ":" + tag && ':' !in tag
    ensures var t := name + ":" + tag;
            SplitReference(t) == Ok(if '/' in tag then (t, "latest") else (name, tag))
  {
    var t := name + ":" + tag;
    FindLastUnique(name, ':', tag);
    assert t == name + [':'] + tag;
    assert t[..|name|] == name && t[|name| + 1..] == tag;
  }

  lemma ParsesToTag(name: string, tag: string)
    requires IsTrimmed(name + ":" + tag) && '@' !in name + ":" + tag && ':' !in tag
    ensures var t := name + ":" + tag;
            if '/' in tag then IsReferenceTo(Parse(t), t, "latest") else IsReferenceTo(Parse(t), name, tag)
  {
    var t := name + ":" + tag;
    ParseTrimmed(t);
    SplitTag(name, tag);
    if '/' in tag {
      FromPartsExactly(t, "latest");
    } else {
      FromPartsExactly(name, tag);
    }
  }

  lemma ParsesToName(name: string)
    requires IsTrimmed(name) && '@' !in name && ':' !in name
    ensures IsReferenceTo(Parse(name), name, "latest")
  {
    ParseTrimmed(name);
    FromPartsExactly(name, "latest");
  }

  // Every input without whitespace around it is a name and a digest, if it has an at sign, a name and a tag,
  // if no slash follows its last colon, or a name alone, whose tag is `latest`.
  lemma ParseExactly(t: string)
    requires IsTrimmed(t)
    ensures forall name, digest :: t == name + "@" + digest && '@' !in name ==>
              if "sha256:" <= digest then IsReferenceTo(Parse(t), name, digest) else Parse(t) == Err(UnsupportedDigest)
    ensures '@' !in t ==>
              forall name, tag :: t == name + ":" + tag && ':' !in tag ==>
                if '/' in tag then IsReferenceTo(Parse(t), t, "latest") else IsReferenceTo(Parse(t), name, tag)
    ensures '@' !in t && ':' !in t ==> IsReferenceTo(Parse(t), t, "latest")
  {
    forall name, digest | t == name + "@" + digest && '@' !in name
      ensures if "sha256:" <= digest then IsReferenceTo(Parse(t), name, digest) else Parse(t) == Err(UnsupportedDigest)
    {
      ParsesToDigest(name, digest);
    }
    if '@' !in t {
      forall name, tag | t == name + ":" + tag && ':' !in tag
        ensures if '/' in tag then IsReferenceTo(Parse(t), t, "latest") else IsReferenceTo(Parse(t), name, tag)
      {
        ParsesToTag(name, tag);
      }
      if ':' !in t {
        ParsesToName(t);
      }
    }
  }

  // The code points with the Unicode property White_Space.
  lemma WhitespaceExactly(c: char)
    ensures IsWhitespace(c) <==>
              c as int in {0x9, 0xA, 0xB, 0xC, 0xD, 0x20, 0x85, 0xA0, 0x1680, 0x2000, 0x2001, 0x2002, 0x2003, 0x2004,
                           0x2005, 0x2006, 0x2007, 0x2008, 0x2009, 0x200A, 0x2028, 0x2029, 0x202F, 0x205F, 0x3000}
  {
  }

  lemma {:induction false} TrimOneMore(s: string, c: char)
    requires IsWhitespace(c)
    ensures Trim(s + [c]) == Trim(s)
  {
    if s == "" {
      assert s + [c] == [c] && TrimStart([c]) == TrimStart([]);
    } else if IsWhitespace(s[0]) {
      assert (s + [c])[1..] == s[1..] + [c];
      TrimOneMore(s[1..], c);
    } else {
      assert (s + [c])[..|s|] == s;
    }
  }

  lemma {:induction false} TrimmedAround(before: string, input: string, after: string)
    requires forall c <- before + after :: IsWhitespace(c)
    ensures Trim(before + input + after) == Trim(input)
  {
    var s := before + input + after;
    if before != "" {
      assert before[0] in before + after;
      assert s[1..] == before[1..] + input + after;
      assert forall c <- before[1..] + after :: c in before + after;
      TrimmedAround(before[1..], input, after);
    } else if after != "" {
      var n := |after| - 1;
      assert after[n] in before + after;
      assert forall c <- "" + after[..n] :: c in before + after;
      TrimmedAround("", input, after[..n]);
      assert s == "" + input + after[..n] + [after[n]];
      TrimOneMore("" + input + after[..n], after[n]);
    } else {
      assert s == input;
    }
  }

  // Whitespace around a reference makes no difference, and nothing but whitespace is refused.
  lemma WhitespaceIsIgnored(before: string, input: string, after: string)
    requires forall c <- before + after :: IsWhitespace(c)
    ensures Parse(before + input + after) == Parse(input)
    ensures input == "" ==> Parse(before + input + after) == Err(EmptyReference)
  {
    TrimmedAround(before, input, after);
  }
}
