/**
 * The deployed contract as the console sees it: a declared (virtual) balance and an
 * actual balance per account. Its bytecode is not part of this model; only the calls the
 * recovery makes are modelled, and whether a call throws is left to an oracle.
 */
module Contract {

  /** What `getCode` returns for an address without a contract. */
  const NoCode: string := "0x"

  datatype Ledger = Ledger(declared: map<string, nat>, actual: map<string, nat>)

  /** `balanceOf`: the declared balance, zero for an account never set. */
  function BalanceOf(l: Ledger, account: string): nat {
    Lookup(l.declared, account)
  }

  /** `getActualBalance`. */
  function ActualBalanceOf(l: Ledger, account: string): nat {
    Lookup(l.actual, account)
  }

  function Lookup(m: map<string, nat>, account: string): nat {
    if account in m then m[account] else 0
  }

  /** `setVirtualBalance`: replaces one account's declared balance. */
  function SetVirtualBalance(l: Ledger, account: string, amount: nat): (r: Ledger)
    ensures BalanceOf(r, account) == amount
    ensures forall other :: other != account ==> BalanceOf(r, other) == BalanceOf(l, other)
    ensures r.actual == l.actual
  {
    l.(declared := l.declared[account := amount])
  }

  /**
   * How one replay attempt goes wrong: the set call throws (`SetFault`), or the set goes
   * through and one of the two reads after it throws (`ReadFault`).
   */
  datatype Fault = NoFault | SetFault | ReadFault

  /** A freshly deployed contract: its address and its state right after deployment. */
  datatype Deployment = Deployment(address: string, ledger: Ledger)
}
