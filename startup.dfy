/**
 * Module start-up and tear-down: resolving the kernel functions the
 * replacements call indirectly, then registering and enabling the
 * live patch, with the rollback taken when enabling fails.
 *
 * kallsyms_lookup_name is modelled by the given lookup function, and the
 * klp_* calls by the replies they give.
 */
module Startup {
  import opened Kernel

  /** The names in dept_fsyms, in the order resolve_func looks them up. */
  const FSYM_NAMES: seq<string> :=
    ["sys_fadvise64_64", "sys_sync_file_range2", "vfs_read", "vfs_write", "vfs_readv", "rw_verify_area"]

  /** The functions the patch replaces (funcs[]), in table order. */
  const KLP_FUNC_NAMES: seq<string> :=
    ["sys_read", "sys_write", "sys_readv", "sys_writev", "sys_pread64", "sys_pwrite64", "sys_preadv", "sys_pwritev"]

  /** dept_fsyms: each name with the slot its resolved address is stored in (0 while unresolved). */
  class SymbolTable {
    const names: seq<string>
    const addrs: array<size>

    predicate Valid()
      reads this
    {
      addrs.Length == |names|
    }

    constructor ()
      ensures names == FSYM_NAMES && Valid() && fresh(addrs)
      ensures forall j :: 0 <= j < addrs.Length ==> addrs[j] == 0
    {
      names := FSYM_NAMES;
      addrs := new size[|FSYM_NAMES|](_ => 0);
    }
  }

  /** The index of the first name the lookup cannot resolve, or |names| when it resolves all of them. */
  function FirstUnresolved(names: seq<string>, lookup: string -> size): (k: nat)
    ensures k <= |names|
    ensures forall j :: 0 <= j < k ==> lookup(names[j]) != 0
    ensures k < |names| ==> lookup(names[k]) == 0
  {
    if names == [] || lookup(names[0]) == 0 then 0
    else 1 + FirstUnresolved(names[1..], lookup)
  }

  /** Every name resolves exactly when no unresolved one comes first. */
  lemma AllResolved(names: seq<string>, lookup: string -> size)
    ensures FirstUnresolved(names, lookup) == |names| <==> forall j :: 0 <= j < |names| ==> lookup(names[j]) != 0
  {}

  /** fill_func_symbol(&dept_fsyms[i]): stores the looked-up address, or fails with -ENOENT when it is 0. */
  method FillFuncSymbol(t: SymbolTable, i: nat, lookup: string -> size) returns (ret: int32)
    requires t.Valid() && i < t.addrs.Length
    modifies t.addrs
    ensures lookup(t.names[i]) == 0 ==> ret == -ENOENT && t.addrs[..] == old(t.addrs[..])
    ensures lookup(t.names[i]) != 0 ==> ret == 0 && t.addrs[..] == old(t.addrs[..])[i := lookup(t.names[i])]
  {
    var address := lookup(t.names[i]);
    if address == 0 {
      return -ENOENT;
    }
    t.addrs[i] := address;
    ret := 0;
  }

  /**
   * resolve_func: fills the table in order and stops at the first name that
   * does not resolve. The entries before it hold their addresses; it and the
   * entries after it are untouched.
   */
  method ResolveFunc(t: SymbolTable, lookup: string -> size) returns (ret: int32)
    requires t.Valid()
    modifies t.addrs
    ensures var k := FirstUnresolved(t.names, lookup);
      && (ret == 0 <==> k == |t.names|)
      && (ret != 0 ==> ret == -ENOENT)
      && forall j :: 0 <= j < t.addrs.Length ==>
           t.addrs[j] == if j < k then lookup(t.names[j]) else old(t.addrs[j])
  {
    var i := 0;
    while i < t.addrs.Length
      invariant 0 <= i <= FirstUnresolved(t.names, lookup)
      invariant forall j :: 0 <= j < t.addrs.Length ==>
        t.addrs[j] == if j < i then lookup(t.names[j]) else old(t.addrs[j])
    {
      ret := FillFuncSymbol(t, i, lookup);
      if ret != 0 {
        return;
      }
      i := i + 1;
    }
    ret := 0;
  }

  /** The live patch's state inside the livepatch core. */
  class Patch {
    /** The functions its single vmlinux object replaces (objs[0].funcs). */
    const funcs: seq<string>
    var registered: bool
    var enabled: bool

    constructor ()
      ensures funcs == KLP_FUNC_NAMES && !registered && !enabled
    {
      funcs := KLP_FUNC_NAMES;
      registered := false;
      enabled := false;
    }

    /** klp_register_patch, answering reply. */
    method Register(reply: int32) returns (r: int32)
      modifies this
      ensures r == reply
      ensures registered == (old(registered) || reply == 0) && enabled == old(enabled)
    {
      if reply == 0 {
        registered := true;
      }
      r := reply;
    }

    /** klp_enable_patch, answering reply. */
    method Enable(reply: int32) returns (r: int32)
      modifies this
      ensures r == reply
      ensures enabled == (old(enabled) || reply == 0) && registered == old(registered)
    {
      if reply == 0 {
        enabled := true;
      }
      r := reply;
    }

    /** klp_unregister_patch, answering reply; a failure is only warned about by the callers. */
    method Unregister(reply: int32) returns (r: int32)
      modifies this
      ensures r == reply
      ensures registered == (old(registered) && reply != 0) && enabled == old(enabled)
    {
      if reply == 0 {
        registered := false;
      }
      r := reply;
    }
  }

  /**
   * no_fscache_init: resolve, register, enable. It succeeds exactly when all
   * three do; a failed enable is rolled back by unregistering, and every
   * failure returns the error of the step that failed.
   */
  method NoFscacheInit(t: SymbolTable, p: Patch, lookup: string -> size,
                       registerRet: int32, enableRet: int32, unregisterRet: int32) returns (ret: int32)
    requires t.Valid()
    requires !p.registered && !p.enabled
    modifies t.addrs, p
    ensures var k := FirstUnresolved(t.names, lookup);
      forall j :: 0 <= j < t.addrs.Length ==>
        t.addrs[j] == if j < k then lookup(t.names[j]) else old(t.addrs[j])
    ensures var resolved := FirstUnresolved(t.names, lookup) == |t.names|;
      && (ret == 0 <==> resolved && registerRet == 0 && enableRet == 0)
      && (!resolved ==> ret == -ENOENT && !p.registered && !p.enabled)
      && (resolved && registerRet != 0 ==> ret == registerRet && !p.registered && !p.enabled)
      && (resolved && registerRet == 0 && enableRet != 0 ==>
            ret == enableRet && !p.enabled && p.registered == (unregisterRet != 0))
      && (ret == 0 ==> p.registered && p.enabled)
  {
    ret := ResolveFunc(t, lookup);
    if ret != 0 {
      return;
    }
    ret := p.Register(registerRet);
    if ret != 0 {
      return;
    }
    ret := p.Enable(enableRet);
    if ret != 0 {
      var _ := p.Unregister(unregisterRet);
      return;
    }
    ret := 0;
  }

  /** no_fscache_exit: unregisters the patch, only warning when that fails. */
  method NoFscacheExit(p: Patch, unregisterRet: int32)
    modifies p
    ensures p.registered == (old(p.registered) && unregisterRet != 0) && p.enabled == old(p.enabled)
  {
    var _ := p.Unregister(unregisterRet);
  }
}
