/** The balances of one asset, by account. */
module Accounts {

  class AccountDb {
    var balances: map<nat, int>

    constructor (accounts: map<nat, int>)
      ensures balances == accounts
    {
      balances := accounts;
    }

    method TransferAvailable(owner: nat, amount: int)
      requires owner in balances
      modifies this
      ensures balances == old(balances)[owner := old(balances)[owner] + amount]
    {
      balances := balances[owner := balances[owner] + amount];
    }

    /** Set an amount aside, if there is enough. */
    method Escrow(owner: nat, amount: nat) returns (ok: bool)
      requires owner in balances
      modifies this
      ensures ok <==> amount <= old(balances)[owner]
      ensures balances == if ok then old(balances)[owner := old(balances)[owner] - amount] else old(balances)
    {
      if balances[owner] < amount { return false; }
      balances := balances[owner := balances[owner] - amount];
      ok := true;
    }
  }
}
