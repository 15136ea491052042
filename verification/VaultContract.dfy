/** The vault contract itself: fields that its functions write in place, and reverts that undo them. */
module VaultContract {
  import opened Wrappers
  import opened Members
  import opened Hashing
  import opened MerkleSpec
  import opened Sums
  import Spec = VaultSpec
  import opened VaultSpec

  class Token {
    var balances: map<Address, nat>

    constructor (initial: map<Address, nat>)
      ensures balances == initial
    {
      balances := initial;
    }

    method Transfer(from: Address, to: Address, amount: nat) returns (ok: bool)
      modifies this
      ensures match TokenTransfer(old(balances), from, to, amount)
              case Success(moved) => ok && balances == moved
              case Failure(_) => !ok && balances == old(balances)
    {
      if to == ZERO_ADDRESS || Get(balances, from) < amount {
        return false;
      }
      balances := balances[from := Get(balances, from) - amount];
      balances := balances[to := Get(balances, to) + amount];
      return true;
    }
  }

  /** How a contract function must end: the specified new state, or the specified error and no change. */
  ghost predicate Ends(expected: Result<Vault, Error>, error: Option<Error>, before: Vault, after: Vault) {
    match expected
    case Success(next) => error == None && after == next
    case Failure(e) => error == Some(e) && after == before
  }

  /** How an internal function must end: its caller undoes what it wrote before it failed. */
  ghost predicate EndsInside(expected: Result<Vault, Error>, error: Option<Error>, after: Vault) {
    match expected
    case Success(next) => error == None && after == next
    case Failure(e) => error == Some(e)
  }

  class DataunionVault {
    const self: Address
    const token: Token
    const owner: Address
    const ecrecover: Recover   // the signature recovery of the chain
    var blockFreezeSeconds: nat
    var operator: Address
    var adminFee: nat
    var committedHash: map<nat, Digest>
    var blockTimestamp: map<nat, nat>
    var totalWithdrawn: nat
    var totalProven: nat
    var earnings: map<Address, nat>
    var withdrawn: map<Address, nat>

    function View(): Vault
      reads this, token
    {
      Spec.Vault(self, owner, operator, adminFee, blockFreezeSeconds, committedHash, blockTimestamp,
                 totalWithdrawn, totalProven, earnings, withdrawn, token.balances)
    }

    /** A new vault has nothing proven, nothing withdrawn, and whatever tokens its address holds already. */
    constructor (recover: Recover, address: Address, sender: Address, operatorAddress: Address, tokenContract: Token,
                 blockFreezePeriodSeconds: nat, adminFeeFraction: nat)
      requires adminFeeFraction <= ONE_ETHER
      ensures Accounted(View())
      ensures View() == Spec.Vault(address, sender, operatorAddress, adminFeeFraction, blockFreezePeriodSeconds,
                                   map[], map[], 0, 0, map[], map[], tokenContract.balances)
    {
      self, token, owner, ecrecover := address, tokenContract, sender, recover;
      blockFreezeSeconds, operator, adminFee := blockFreezePeriodSeconds, operatorAddress, adminFeeFraction;
      committedHash, blockTimestamp := map[], map[];
      totalWithdrawn, totalProven := 0, 0;
      earnings, withdrawn := map[], map[];
    }

    /** Undoes everything a failed transaction wrote. */
    method Revert(saved: Vault)
      requires saved.self == self && saved.owner == owner
      modifies this, token
      ensures View() == saved
    {
      operator, adminFee, blockFreezeSeconds := saved.operator, saved.adminFee, saved.blockFreezeSeconds;
      committedHash, blockTimestamp := saved.committedHash, saved.blockTimestamp;
      totalWithdrawn, totalProven := saved.totalWithdrawn, saved.totalProven;
      earnings, withdrawn := saved.earnings, saved.withdrawn;
      token.balances := saved.tokens;
    }

    method Commit(sender: Address, now: nat, blockNumber: nat, rootHash: Digest) returns (error: Option<Error>)
      modifies this
      ensures Ends(Execute(old(View()), ecrecover, Tx(sender, now, Call.Commit(blockNumber, rootHash))),
              error, old(View()), View())
    {
      if blockNumber in committedHash && committedHash[blockNumber] != Zero {
        return Some(Overwrite);
      }
      error := OnCommit(sender, now, blockNumber);
      if error.Some? {
        return;
      }
      committedHash := committedHash[blockNumber := rootHash];
    }

    method OnCommit(sender: Address, now: nat, blockNumber: nat) returns (error: Option<Error>)
      modifies this`blockTimestamp
      ensures error == if sender != operator then Some(NotPermitted) else None
      ensures blockTimestamp == if error.None? then old(blockTimestamp)[blockNumber := now] else old(blockTimestamp)
    {
      if sender != operator {
        return Some(NotPermitted);
      }
      blockTimestamp := blockTimestamp[blockNumber := now];
      return None;
    }

    /** Folds the proof in the sorted order of each pair, with an 8-bit loop counter that wraps around, and with
        gas for so many turns: however much gas there is, it never suffices for more than 255 hashes. */
    method CalculateRoot(leafHash: Digest, others: seq<Digest>, gas: nat) returns (r: Result<Digest, Error>)
      ensures |others| <= gas ==> r == CalculateRootHash(leafHash, others)
      ensures |others| > gas ==> r == Failure(OutOfGas)
    {
      var root := leafHash;
      var i := 0;
      var turns := 0;
      while i < |others|
        invariant turns <= gas && i == Counter(turns)
        invariant |others| <= MAX_UINT8 ==> turns == i <= |others| && Fold(root, others[i..]) == Fold(leafHash, others)
        decreases gas - turns
      {
        CounterEndsExactlyUpTo(|others|);
        CounterIs(turns);
        CounterIs(turns + 1);
        if turns == gas {
          return Failure(OutOfGas);
        }
        var other := others[i];
        assert others[i..][0] == other && others[i..][1..] == others[i + 1..];
        if Less(root, other) {
          root := NodeHash(root, other);
        } else {
          root := NodeHash(other, root);
        }
        i := (i + 1) % (MAX_UINT8 + 1);
        turns := turns + 1;
      }
      CounterEndsExactlyUpTo(|others|);
      return Success(root);
    }

    /** The gas is taken to suffice for a turn for each hash; it suffices for no more than 255 of them however much
        there is. */
    method IsProofCorrect(blockNumber: nat, account: Address, balance: Word, proof: seq<Digest>)
      returns (r: Result<bool, Error>)
      ensures r == ProofIsCorrect(View(), blockNumber, account, balance, proof)
    {
      var rootHash := if blockNumber in committedHash then committedHash[blockNumber] else Zero;
      if rootHash == Zero {
        return Failure(BlockNotFound);
      }
      var root := CalculateRoot(LeafHash(account, balance, blockNumber), proof, |proof| + MAX_UINT8);
      match root
      case Failure(e) => return Failure(e);
      case Success(h) => return Success(rootHash == h);
    }

    /** The body of `prove`, inside whatever transaction it is part of. */
    method ProveInside(now: nat, blockNumber: nat, account: Address, balance: Word, proof: seq<Digest>)
      returns (error: Option<Error>)
      modifies this
      ensures EndsInside(ProveBalance(old(View()), now, blockNumber, account, balance, proof), error, View())
    {
      var correct := IsProofCorrect(blockNumber, account, balance, proof);
      if correct.Failure? {
        return Some(correct.error);
      }
      if !correct.value {
        return Some(BadProof);
      }
      error := VerifySuccess(now, blockNumber, account, balance);
    }

    method VerifySuccess(now: nat, blockNumber: nat, account: Address, newEarnings: Word) returns (error: Option<Error>)
      modifies this
      ensures EndsInside(OnVerifySuccess(old(View()), now, blockNumber, account, newEarnings), error, View())
    {
      hide SafeAdd, SafeSub;
      var blockFreezeStart := if blockNumber in blockTimestamp then blockTimestamp[blockNumber] else 0;
      if now <= (blockFreezeStart + blockFreezeSeconds) % TWO_256 {
        return Some(Frozen);
      }
      if newEarnings <= Get(earnings, account) {
        return Some(OldEarnings);
      }
      var sum := SafeAdd(totalProven, newEarnings);
      if sum.Failure? { return Some(sum.error); }
      var proven := SafeSub(sum.value, Get(earnings, account));
      if proven.Failure? { return Some(proven.error); }
      totalProven := proven.value;
      var needed := SafeSub(totalProven, totalWithdrawn);
      if needed.Failure? { return Some(needed.error); }
      if needed.value > Get(token.balances, self) {
        return Some(MissingBalance);
      }
      earnings := earnings[account := newEarnings];
      return None;
    }

    /** The internal withdrawal: the books are written before the tokens move. */
    method WithdrawInside(recipient: Address, account: Address, amount: Word) returns (error: Option<Error>)
      modifies this, token
      ensures EndsInside(DoWithdraw(old(View()), recipient, account, amount), error, View())
    {
      if amount == 0 {
        return Some(ZeroWithdraw);
      }
      var w := SafeAdd(Get(withdrawn, account), amount);
      if w.Failure? { return Some(w.error); }
      if w.value > Get(earnings, account) {
        return Some(Overdraft);
      }
      withdrawn := withdrawn[account := w.value];
      var total := SafeAdd(totalWithdrawn, amount);
      if total.Failure? { return Some(total.error); }
      totalWithdrawn := total.value;
      var ok := token.Transfer(self, recipient, amount);
      if !ok {
        return Some(TransferFailed);
      }
      return None;
    }

    method ProveAndWithdrawAllInside(now: nat, recipient: Address, account: Address, blockNumber: nat,
                                     totalEarnings: Word, proof: seq<Digest>) returns (error: Option<Error>)
      modifies this, token
      ensures EndsInside(ProveAndWithdrawAll(old(View()), now, recipient, account, blockNumber, totalEarnings, proof),
              error, View())
    {
      error := ProveInside(now, blockNumber, account, totalEarnings, proof);
      if error.Some? {
        return;
      }
      var withdrawable := SafeSub(totalEarnings, Get(withdrawn, account));
      if withdrawable.Failure? { return Some(withdrawable.error); }
      error := WithdrawInside(recipient, account, withdrawable.value);
    }

    method Authorize(recipient: Address, signer: Address, amount: Word, signature: Signature)
      returns (error: Option<Error>)
      ensures match CheckSignature(View(), ecrecover, recipient, signer, amount, signature)
              case Failure(e) => error == Some(e)
              case Success(_) => error == None
    {
      if signature.length != 65 {
        return Some(BadSignatureLength);
      }
      var version := signature.v;
      if version < 27 {
        version := version + 27;
      }
      if version != 27 && version != 28 {
        return Some(BadSignatureVersion);
      }
      var message := Message(recipient, amount, self, Get(withdrawn, signer));
      if ecrecover(message, signature) != signer {
        return Some(BadSignature);
      }
      return None;
    }

    // ----- transactions: they take effect as a whole or not at all

    method Prove(sender: Address, now: nat, blockNumber: nat, account: Address, balance: Word, proof: seq<Digest>)
      returns (error: Option<Error>)
      modifies this, token
      ensures Ends(Execute(old(View()), ecrecover, Tx(sender, now, Call.Prove(blockNumber, account, balance, proof))),
              error, old(View()), View())
    {
      var saved := View();
      error := ProveInside(now, blockNumber, account, balance, proof);
      if error.Some? {
        Revert(saved);
      }
    }

    method Withdraw(sender: Address, now: nat, amount: Word) returns (error: Option<Error>)
      modifies this, token
      ensures Ends(Execute(old(View()), ecrecover, Tx(sender, now, Call.Withdraw(amount))), error, old(View()), View())
    {
      var saved := View();
      error := WithdrawInside(sender, sender, amount);
      if error.Some? {
        Revert(saved);
      }
    }

    method WithdrawFor(sender: Address, now: nat, recipient: Address, amount: Word) returns (error: Option<Error>)
      modifies this, token
      ensures Ends(Execute(old(View()), ecrecover, Tx(sender, now, Call.WithdrawFor(recipient, amount))),
              error, old(View()), View())
    {
      var saved := View();
      error := WithdrawInside(recipient, recipient, amount);
      if error.Some? {
        Revert(saved);
      }
    }

    method WithdrawTo(sender: Address, now: nat, recipient: Address, amount: Word) returns (error: Option<Error>)
      modifies this, token
      ensures Ends(Execute(old(View()), ecrecover, Tx(sender, now, Call.WithdrawTo(recipient, amount))),
              error, old(View()), View())
    {
      var saved := View();
      error := WithdrawInside(recipient, sender, amount);
      if error.Some? {
        Revert(saved);
      }
    }

    method WithdrawToSigned(sender: Address, now: nat, recipient: Address, signer: Address, amount: Word,
                            signature: Signature) returns (error: Option<Error>)
      modifies this, token
      ensures Ends(Execute(old(View()), ecrecover, Tx(sender, now, Call.WithdrawToSigned(recipient, signer, amount,
              signature))), error, old(View()), View())
    {
      var saved := View();
      error := Authorize(recipient, signer, amount, signature);
      if error.None? {
        error := WithdrawInside(recipient, signer, amount);
      }
      if error.Some? {
        Revert(saved);
      }
    }

    method WithdrawAll(sender: Address, now: nat, blockNumber: nat, totalEarnings: Word, proof: seq<Digest>)
      returns (error: Option<Error>)
      modifies this, token
      ensures Ends(Execute(old(View()), ecrecover, Tx(sender, now, Call.WithdrawAll(blockNumber, totalEarnings,
              proof))), error, old(View()), View())
    {
      var saved := View();
      error := ProveAndWithdrawAllInside(now, sender, sender, blockNumber, totalEarnings, proof);
      if error.Some? {
        Revert(saved);
      }
    }

    method WithdrawAllFor(sender: Address, now: nat, recipient: Address, blockNumber: nat, totalEarnings: Word,
                          proof: seq<Digest>) returns (error: Option<Error>)
      modifies this, token
      ensures Ends(Execute(old(View()), ecrecover, Tx(sender, now, Call.WithdrawAllFor(recipient, blockNumber,
              totalEarnings, proof))), error, old(View()), View())
    {
      var saved := View();
      error := ProveAndWithdrawAllInside(now, recipient, recipient, blockNumber, totalEarnings, proof);
      if error.Some? {
        Revert(saved);
      }
    }

    method WithdrawAllTo(sender: Address, now: nat, recipient: Address, blockNumber: nat, totalEarnings: Word,
                         proof: seq<Digest>) returns (error: Option<Error>)
      modifies this, token
      ensures Ends(Execute(old(View()), ecrecover, Tx(sender, now, Call.WithdrawAllTo(recipient, blockNumber,
              totalEarnings, proof))), error, old(View()), View())
    {
      var saved := View();
      error := ProveAndWithdrawAllInside(now, recipient, sender, blockNumber, totalEarnings, proof);
      if error.Some? {
        Revert(saved);
      }
    }

    method WithdrawAllToSigned(sender: Address, now: nat, recipient: Address, signer: Address, signature: Signature,
                               blockNumber: nat, totalEarnings: Word, proof: seq<Digest>)
      returns (error: Option<Error>)
      modifies this, token
      ensures Ends(Execute(old(View()), ecrecover, Tx(sender, now, Call.WithdrawAllToSigned(recipient, signer,
              signature, blockNumber, totalEarnings, proof))), error, old(View()), View())
    {
      var saved := View();
      error := Authorize(recipient, signer, 0, signature);
      if error.None? {
        error := ProveAndWithdrawAllInside(now, recipient, signer, blockNumber, totalEarnings, proof);
      }
      if error.Some? {
        Revert(saved);
      }
    }

    method ProveAndWithdrawToSigned(sender: Address, now: nat, recipient: Address, signer: Address, amount: Word,
                                    signature: Signature, blockNumber: nat, totalEarnings: Word, proof: seq<Digest>)
      returns (error: Option<Error>)
      modifies this, token
      ensures Ends(Execute(old(View()), ecrecover, Tx(sender, now, Call.ProveAndWithdrawToSigned(recipient, signer,
              amount, signature, blockNumber, totalEarnings, proof))), error, old(View()), View())
    {
      var saved := View();
      error := Authorize(recipient, signer, amount, signature);
      if error.None? {
        error := ProveInside(now, blockNumber, signer, totalEarnings, proof);
      }
      if error.None? {
        error := WithdrawInside(recipient, signer, amount);
      }
      if error.Some? {
        Revert(saved);
      }
    }

    method SetOperator(sender: Address, newOperator: Address) returns (error: Option<Error>)
      modifies this`operator
      ensures Ends(Execute(old(View()), ecrecover, Tx(sender, 0, Call.SetOperator(newOperator))), error, old(View()),
              View())
    {
      if sender != owner {
        return Some(OnlyOwner);
      }
      operator := newOperator;
      return None;
    }

    method SetAdminFee(sender: Address, newAdminFee: Word) returns (error: Option<Error>)
      modifies this`adminFee
      ensures Ends(Execute(old(View()), ecrecover, Tx(sender, 0, Call.SetAdminFee(newAdminFee))), error, old(View()),
              View())
    {
      if sender != owner {
        return Some(OnlyOwner);
      }
      if newAdminFee > ONE_ETHER {
        return Some(BadAdminFee);
      }
      adminFee := newAdminFee;
      return None;
    }
  }
}
