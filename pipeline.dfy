/**
 * The start-up chain (`init`, src/lib.rs): look for the marker string in
 * the data sections, in the order the module lists them; resolve the
 * function that refers to its address in the first `.text` section; hook
 * that function. The sections are an input; reading them from the loaded
 * image is not part of this model.
 */
module Pipeline {
  import opened Wrappers
  import opened Bytes
  import opened StringLocator
  import A64Resolver
  import X86Resolver

  /** A section of the loaded module: its name, its load address, and its contents. */
  datatype Section = Section(name: string, addr: bv64, bytes: ByteSlice)

  /** The marker string `"A dimension task group"` as `as_bytes()` gives it: ASCII, one byte per character. */
  const STR_VAL: seq<byte> :=
    [0x41, 0x20, 0x64, 0x69, 0x6D, 0x65, 0x6E, 0x73, 0x69, 0x6F, 0x6E,
     0x20, 0x74, 0x61, 0x73, 0x6B, 0x20, 0x67, 0x72, 0x6F, 0x75, 0x70]

  // Iterator combinators

  /** `Iterator::find_map`: the first `Some` the function yields, going through xs in order. */
  function FindMap<T, U>(xs: seq<T>, f: T -> Option<U>): (r: Option<U>)
    ensures r.Some? <==> exists k :: 0 <= k < |xs| && f(xs[k]).Some?
  {
    if |xs| == 0 then None
    else if f(xs[0]).Some? then f(xs[0])
    else
      assert forall k :: 1 <= k < |xs| ==> xs[k] == xs[1..][k - 1];
      FindMap(xs[1..], f)
  }

  /** find_map answers with the value of the first element that yields one. */
  lemma {:induction false} FindMapIsFirst<T, U>(xs: seq<T>, f: T -> Option<U>)
    ensures FindMap(xs, f).Some? ==>
      exists k :: 0 <= k < |xs| && FindMap(xs, f) == f(xs[k]) && forall j :: 0 <= j < k ==> f(xs[j]).None?
    decreases |xs|
  {
    if |xs| > 0 && f(xs[0]).None? && FindMap(xs, f).Some? {
      var rest := xs[1..];
      FindMapIsFirst(rest, f);
      var k :| 0 <= k < |rest| && FindMap(rest, f) == f(rest[k]) && forall j :: 0 <= j < k ==> f(rest[j]).None?;
      assert rest[k] == xs[k + 1];
      assert forall j :: 1 <= j < k + 1 ==> xs[j] == rest[j - 1];
    }
  }

  /** An element that yields nothing can be added anywhere without changing what find_map finds. */
  lemma {:induction false} FindMapSkips<T, U>(xs: seq<T>, f: T -> Option<U>, x: T, i: nat)
    requires i <= |xs| && f(x).None?
    ensures FindMap(xs[..i] + [x] + xs[i..], f) == FindMap(xs, f)
    decreases i
  {
    var ys := xs[..i] + [x] + xs[i..];
    if i == 0 {
      assert ys[1..] == xs;
    } else {
      FindMapSkips(xs[1..], f, x, i - 1);
      assert ys[0] == xs[0];
      assert ys[1..] == xs[1..][..i - 1] + [x] + xs[1..][i - 1..];
    }
  }

  /** `Iterator::find`: the first element satisfying p, which is `find_map` of `p(x).then_some(x)`. */
  function Find<T>(xs: seq<T>, p: T -> bool): Option<T>
  {
    FindMap(xs, ThenSome(p))
  }

  /** `|x| p(x).then_some(x)`. */
  function ThenSome<T>(p: T -> bool): T -> Option<T>
  {
    x => if p(x) then Some(x) else None
  }

  // The string lookup

  /** The sections `init` searches for the string: `.rodata`, `.rdata` or `.data`. */
  predicate IsDataSection(s: Section)
  {
    s.name == ".rodata" || s.name == ".rdata" || s.name == ".data"
  }

  /** `filter(IsDataSection)` followed by the locator: what each section contributes to `find_map`. */
  function Locate(text: seq<byte>): Section -> Option<bv64>
  {
    s => if IsDataSection(s) then StringAddr(s.bytes, text, s.addr) else None
  }

  /** The string address: the first hit among the data sections. */
  function FindStringAddr(sections: seq<Section>, text: seq<byte>): Option<bv64>
  {
    FindMap(sections, Locate(text))
  }

  /** The first occurrence of the NUL-terminated text is at byte p. */
  ghost predicate FirstTerminatedAt(data: seq<byte>, text: seq<byte>, p: nat)
  {
    TerminatedAt(data, text, p) && forall q: nat :: q < p ==> !TerminatedAt(data, text, q)
  }

  /** Section s is searched and holds the NUL-terminated text. */
  ghost predicate Hits(s: Section, text: seq<byte>)
  {
    IsDataSection(s) && exists p: nat :: TerminatedAt(s.bytes, text, p)
  }

  /** Section k is the first that is searched and holds the text. */
  ghost predicate FirstHit(sections: seq<Section>, text: seq<byte>, k: nat)
  {
    k < |sections| && Hits(sections[k], text) && forall j :: 0 <= j < k ==> !Hits(sections[j], text)
  }

  /** What one section contributes: nothing unless it is a data section holding the text. */
  lemma LocateHits(s: Section, text: seq<byte>)
    ensures Locate(text)(s).Some? <==> Hits(s, text)
    ensures Locate(text)(s).Some? ==>
      exists p: nat :: FirstTerminatedAt(s.bytes, text, p) && Locate(text)(s).value == AddressAt(s.addr, p)
  {
    StringAddrIsFirstOccurrence(s.bytes, text, s.addr);
  }

  /**
   * The string is found exactly when some data section holds it, and then
   * at the address of its first occurrence in the first such section.
   */
  lemma FindStringAddrIsFirstHit(sections: seq<Section>, text: seq<byte>)
    ensures FindStringAddr(sections, text).Some? <==> exists k :: 0 <= k < |sections| && Hits(sections[k], text)
    ensures FindStringAddr(sections, text).Some? ==>
      exists k: nat, p: nat :: FirstHit(sections, text, k) && FirstTerminatedAt(sections[k].bytes, text, p)
        && FindStringAddr(sections, text).value == AddressAt(sections[k].addr, p)
  {
    forall s | s in sections
      ensures Locate(text)(s).Some? <==> Hits(s, text)
    {
      LocateHits(s, text);
    }
    FindMapIsFirst(sections, Locate(text));
    if FindStringAddr(sections, text).Some? {
      var k :| 0 <= k < |sections| && FindStringAddr(sections, text) == Locate(text)(sections[k])
               && forall j :: 0 <= j < k ==> Locate(text)(sections[j]).None?;
      LocateHits(sections[k], text);
      assert FirstHit(sections, text, k);
    }
  }

  /** Sections with other names are never searched: adding one changes nothing. */
  lemma OtherSectionsIgnored(sections: seq<Section>, text: seq<byte>, s: Section, i: nat)
    requires i <= |sections| && !IsDataSection(s)
    ensures FindStringAddr(sections[..i] + [s] + sections[i..], text) == FindStringAddr(sections, text)
  {
    FindMapSkips(sections, Locate(text), s, i);
  }

  // Resolution and the outcome of `init`

  /** Section k is the first named `.text`. */
  ghost predicate FirstText(sections: seq<Section>, k: nat)
  {
    k < |sections| && sections[k].name == ".text" && forall j :: 0 <= j < k ==> sections[j].name != ".text"
  }

  /** Only one section is the first `.text`. */
  lemma FirstTextUnique(sections: seq<Section>, k: nat)
    requires FirstText(sections, k)
    ensures forall k': nat :: FirstText(sections, k') ==> k' == k
    ensures FindText(sections) == Some(sections[k])
  {
    FindTextIsFirst(sections);
  }

  predicate IsText(s: Section)
  {
    s.name == ".text"
  }

  /** `find(|s| s.name == ".text")`. */
  function FindText(sections: seq<Section>): Option<Section>
  {
    Find(sections, IsText)
  }

  /** The search finds the first `.text` section, and nothing when there is none. */
  lemma FindTextIsFirst(sections: seq<Section>)
    ensures FindText(sections).Some? <==> exists k :: 0 <= k < |sections| && sections[k].name == ".text"
    ensures FindText(sections).Some? ==> exists k: nat :: FirstText(sections, k) && FindText(sections).value == sections[k]
  {
    var f := ThenSome(IsText);
    forall s: Section
      ensures f(s) == if s.name == ".text" then Some(s) else None
    {
    }
    FindMapIsFirst(sections, f);
    if FindText(sections).Some? {
      var k :| 0 <= k < |sections| && FindMap(sections, f) == f(sections[k]) && forall j :: 0 <= j < k ==> f(sections[j]).None?;
      assert FirstText(sections, k);
    }
  }

  /** The build target's resolver; x86 code reaches it as the instructions a decoder makes of the bytes at an address. */
  datatype Arch = AArch64 | X86(decode: (seq<byte>, bv64) -> seq<X86Resolver.Instr>)

  /** `find_fn_string_refs(s.as_bytes(), s.addr as u64, target)` for the target's architecture. */
  function Resolve(arch: Arch, text: Section, target: bv64): Result<bv64>
  {
    match arch
    case AArch64 => A64Resolver.Scan(text.bytes, text.addr, target)
    case X86(decode) => X86Resolver.Scan(decode(text.bytes, text.addr), target)
  }

  /** What `init` does: report the missing string, stop quietly, or hook the resolved function. */
  datatype Outcome = StringNotFound | Unresolved(str: bv64) | Hook(str: bv64, fn: bv64)

  /** The chain in `init`: string lookup, then `.text` lookup `and_then` the resolver's answer `ok()`. */
  function Init(sections: seq<Section>, arch: Arch): Outcome
  {
    match FindStringAddr(sections, STR_VAL)
    case None => StringNotFound
    case Some(addr) =>
      var func := match FindText(sections)
                  case None => None
                  case Some(t) => ToOption(Resolve(arch, t, addr));
      match func
      case Some(f) => Hook(addr, f)
      case None => Unresolved(addr)
  }

  /**
   * `init` reports a missing string exactly when no data section holds it;
   * otherwise the string address it goes on with is the first hit's.
   */
  lemma InitFindsString(sections: seq<Section>, arch: Arch)
    ensures Init(sections, arch).StringNotFound? <==> forall k :: 0 <= k < |sections| ==> !Hits(sections[k], STR_VAL)
    ensures !Init(sections, arch).StringNotFound? ==>
      exists k: nat, p: nat :: FirstHit(sections, STR_VAL, k) && FirstTerminatedAt(sections[k].bytes, STR_VAL, p)
        && Init(sections, arch).str == AddressAt(sections[k].addr, p)
  {
    FindStringAddrIsFirstHit(sections, STR_VAL);
  }

  /**
   * Once the string is found at `addr`, `init` hooks exactly when the first
   * `.text` section exists and its resolver answers `Ok`, run with that
   * section's address as the base; the hooked address is that answer.
   */
  lemma InitHooksResolved(sections: seq<Section>, arch: Arch, addr: bv64)
    requires FindStringAddr(sections, STR_VAL) == Some(addr)
    ensures Init(sections, arch).Hook? <==>
      exists k: nat :: FirstText(sections, k) && Resolve(arch, sections[k], addr).Ok?
    ensures Init(sections, arch).Hook? ==>
      exists k: nat :: FirstText(sections, k) && Init(sections, arch) == Hook(addr, Resolve(arch, sections[k], addr).value)
    ensures !Init(sections, arch).Hook? ==> Init(sections, arch) == Unresolved(addr)
  {
    FindTextIsFirst(sections);
    if FindText(sections).Some? {
      var k: nat :| FirstText(sections, k) && FindText(sections).value == sections[k];
      FirstTextUnique(sections, k);
    }
  }

  /**
   * On AArch64, with k the first `.text` section, `init` hooks exactly when
   * that section holds a function whose ADRP/ADD pair computes the string's
   * address; the hooked address is the section's address plus the offset
   * of the first such function.
   */
  lemma InitHooksFirstA64Function(sections: seq<Section>, addr: bv64, k: nat)
    requires FindStringAddr(sections, STR_VAL) == Some(addr) && FirstText(sections, k)
    ensures Init(sections, AArch64).Hook? <==>
      exists o: nat, r: nat :: A64Resolver.FunctionAt(A64Resolver.Decoded(sections[k].bytes, sections[k].addr), A64Resolver.WrappingAdd, addr, o, r)
    ensures Init(sections, AArch64).Hook? ==>
      exists o: nat, r: nat :: A64Resolver.IsFirstFunction(A64Resolver.Decoded(sections[k].bytes, sections[k].addr), A64Resolver.WrappingAdd, addr, o, r)
        && Init(sections, AArch64) == Hook(addr, AddressAt(sections[k].addr, 4 * o))
  {
    InitHooksResolved(sections, AArch64, addr);
    FirstTextUnique(sections, k);
    A64Resolver.ScanFindsFirstFunction(sections[k].bytes, sections[k].addr, addr);
  }

  /**
   * On x86, with k the first `.text` section, `init` hooks exactly when the
   * decoded instructions of that section hold a function (a one-operand
   * `push`, then a reference to the string's address, then `ret`); the
   * hooked address is the `push` of the function whose `ret` comes first.
   */
  lemma InitHooksFirstX86Function(sections: seq<Section>, decode: (seq<byte>, bv64) -> seq<X86Resolver.Instr>, addr: bv64, k: nat)
    requires FindStringAddr(sections, STR_VAL) == Some(addr) && FirstText(sections, k)
    ensures Init(sections, X86(decode)).Hook? <==>
      exists p: nat, r: nat :: X86Resolver.FunctionAt(decode(sections[k].bytes, sections[k].addr), addr, p, r)
    ensures Init(sections, X86(decode)).Hook? ==>
      exists p: nat, r: nat :: X86Resolver.FunctionAt(decode(sections[k].bytes, sections[k].addr), addr, p, r)
        && Init(sections, X86(decode)) == Hook(addr, decode(sections[k].bytes, sections[k].addr)[p].ip)
        && forall p': nat, r': nat :: X86Resolver.FunctionAt(decode(sections[k].bytes, sections[k].addr), addr, p', r') ==> r <= r'
  {
    InitHooksResolved(sections, X86(decode), addr);
    FirstTextUnique(sections, k);
    X86Resolver.ScanFindsFirstFunction(decode(sections[k].bytes, sections[k].addr), addr);
  }
}
