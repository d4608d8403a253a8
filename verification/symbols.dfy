/**
 * The symbol-table scan of `napi_register_module_v1` and the hook address
 * built from its result.
 *
 * The ELF symbol table is taken as already decoded: a sequence of entries,
 * each with its name (the string `elf_strptr` yields) and its `st_value`.
 * The scan keeps the value of the last entry whose name is exactly the
 * mangled name of `webrtc::WindowCapturerX11::CreateRawWindowCapturer`, and
 * 0 when no entry has that name.
 */
module SymbolScan {

  /** `GElf_Addr`, an unsigned 64-bit value. */
  const ADDR_LIMIT: int := 0x1_0000_0000_0000_0000
  type Addr = a: int | 0 <= a < ADDR_LIMIT

  /** The mangled name the scan compares against with `strcmp`. */
  const TargetName: string := "_ZN6webrtc17WindowCapturerX1123CreateRawWindowCapturerERKNS_21DesktopCaptureOptionsE"

  /** The offset reported when nothing matches. */
  const NotFound: Addr := 0

  datatype Symbol = Symbol(name: string, value: Addr)

  predicate IsTarget(sym: Symbol) {
    sym.name == TargetName
  }

  /** No entry of `syms` has the target name. */
  predicate NoMatch(syms: seq<Symbol>) {
    forall i :: 0 <= i < |syms| ==> !IsTarget(syms[i])
  }

  /** Entry `i` has the target name and no later entry does. */
  predicate IsLastMatch(syms: seq<Symbol>, i: int) {
    && 0 <= i < |syms|
    && IsTarget(syms[i])
    && forall j :: i < j < |syms| ==> !IsTarget(syms[j])
  }

  /** The offset the scan settles on, defined from the end of the table. */
  function LastMatch(syms: seq<Symbol>): (r: Addr)
    decreases |syms|
    ensures NoMatch(syms) ==> r == NotFound
    ensures forall i :: IsLastMatch(syms, i) ==> r == syms[i].value
  {
    if |syms| == 0 then NotFound
    else
      var init := syms[..|syms| - 1];
      var last := syms[|syms| - 1];
      if IsTarget(last) then last.value
      else
        assert forall i :: IsLastMatch(syms, i) ==> IsLastMatch(init, i);
        LastMatch(init)
  }

  /** Every table with a matching entry has a last matching entry. */
  lemma {:induction false} LastMatchExists(syms: seq<Symbol>)
    requires !NoMatch(syms)
    decreases |syms|
    ensures exists i :: IsLastMatch(syms, i)
  {
    var n := |syms| - 1;
    if IsTarget(syms[n]) {
      assert IsLastMatch(syms, n);
    } else {
      var init := syms[..n];
      var k :| 0 <= k < |syms| && IsTarget(syms[k]);
      assert init[k] == syms[k];
      LastMatchExists(init);
      var i :| IsLastMatch(init, i);
      assert IsLastMatch(syms, i);
    }
  }

  /** The loop at lines 246-255: walks the entries in order and overwrites
      the offset at every match. */
  method ResolveOffset(syms: seq<Symbol>) returns (offset: Addr)
    ensures NoMatch(syms) ==> offset == NotFound
    ensures forall i :: IsLastMatch(syms, i) ==> offset == syms[i].value
  {
    offset := NotFound;
    var i := 0;
    while i < |syms|
      invariant 0 <= i <= |syms|
      invariant offset == LastMatch(syms[..i])
    {
      assert syms[..i + 1][..i] == syms[..i];
      if IsTarget(syms[i]) {
        offset := syms[i].value;
      }
      i := i + 1;
    }
    assert syms[..i] == syms;
  }

  /** The entries of `syms` that have the target name, in order. */
  function Matching(syms: seq<Symbol>): (m: seq<Symbol>)
    decreases |syms|
    ensures |m| <= |syms|
    ensures forall i :: 0 <= i < |m| ==> IsTarget(m[i])
  {
    if |syms| == 0 then []
    else Matching(syms[..|syms| - 1]) + (if IsTarget(syms[|syms| - 1]) then [syms[|syms| - 1]] else [])
  }

  /** The scan's result depends only on the matching entries. */
  lemma {:induction false} OnlyMatchesMatter(syms: seq<Symbol>)
    decreases |syms|
    ensures LastMatch(syms) == LastMatch(Matching(syms))
  {
    if |syms| > 0 {
      var init := syms[..|syms| - 1];
      var last := syms[|syms| - 1];
      var m := Matching(init);
      OnlyMatchesMatter(init);
      if IsTarget(last) {
        assert Matching(syms) == m + [last];
        assert (m + [last])[..|m + [last]| - 1] == m;
      } else {
        assert Matching(syms) == m;
      }
    }
  }

  /** Scanning a table in two parts: the later part wins whenever it has a match. */
  lemma {:induction false} LastMatchAppend(a: seq<Symbol>, b: seq<Symbol>)
    ensures NoMatch(b) ==> LastMatch(a + b) == LastMatch(a)
    ensures !NoMatch(b) ==> LastMatch(a + b) == LastMatch(b)
  {
    var ab := a + b;
    if !NoMatch(b) {
      LastMatchExists(b);
      var i :| IsLastMatch(b, i);
      assert ab[|a| + i] == b[i];
      assert forall j :: |a| + i < j < |ab| ==> ab[j] == b[j - |a|];
      assert IsLastMatch(ab, |a| + i);
    } else if NoMatch(a) {
      assert forall j :: 0 <= j < |ab| ==> ab[j] == if j < |a| then a[j] else b[j - |a|];
      assert NoMatch(ab);
    } else {
      LastMatchExists(a);
      var i :| IsLastMatch(a, i);
      assert ab[i] == a[i];
      assert forall j :: i < j < |ab| ==> ab[j] == if j < |a| then a[j] else b[j - |a|];
      assert IsLastMatch(ab, i);
    }
  }

  /** The address the hook is installed at: the real library's load base
      plus the resolved offset, in 64-bit unsigned arithmetic. */
  function HookAddress(base: Addr, offset: Addr): (r: Addr)
    ensures base + offset < ADDR_LIMIT ==> r == base + offset
    ensures base + offset >= ADDR_LIMIT ==> r == base + offset - ADDR_LIMIT
  {
    (base + offset) % ADDR_LIMIT
  }

  /** The not-found result is not checked before hooking: a table without the
      target symbol makes the hook target the library's load base itself. */
  lemma MissingSymbolHooksLoadBase(base: Addr, syms: seq<Symbol>)
    requires NoMatch(syms)
    ensures HookAddress(base, LastMatch(syms)) == base
  {
  }
}
