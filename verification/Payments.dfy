/** What each transaction of the vault does to accounts, tokens and roles, and when it succeeds, call by call. */
module Payments {
  import opened Wrappers
  import opened Members
  import opened Hashing
  import opened MerkleSpec
  import opened Sums
  import opened VaultSpec

  // ----- when a call succeeds

  /** The earnings are in the committed tree of a block that is past its freeze, are higher than those proven so far,
      and are covered by tokens. */
  ghost predicate CanProve(v: Vault, now: nat, account: Address, blockNumber: nat, totalEarnings: Word,
                           proof: seq<Digest>)
  {
    && blockNumber in v.committedHash && v.committedHash[blockNumber] != Zero
    && |proof| <= 255 && Fold(LeafHash(account, totalEarnings, blockNumber), proof) == v.committedHash[blockNumber]
    && now > ((if blockNumber in v.blockTimestamp then v.blockTimestamp[blockNumber] else 0) + v.blockFreezeSeconds)
             % TWO_256
    && Get(v.earnings, account) < totalEarnings
    && v.totalProven + totalEarnings < TWO_256
    && v.totalProven - Get(v.earnings, account) + totalEarnings - v.totalWithdrawn <= Get(v.tokens, v.self)
  }

  lemma ProveSucceedsExactlyWhen(v: Vault, now: nat, account: Address, blockNumber: nat, totalEarnings: Word,
                                 proof: seq<Digest>)
    requires Accounted(v)
    ensures ProveBalance(v, now, blockNumber, account, totalEarnings, proof).Success? <==>
            CanProve(v, now, account, blockNumber, totalEarnings, proof)
    ensures CanProve(v, now, account, blockNumber, totalEarnings, proof) ==>
              ProveBalance(v, now, blockNumber, account, totalEarnings, proof).value ==
              v.(totalProven := v.totalProven - Get(v.earnings, account) + totalEarnings,
                 earnings := v.earnings[account := totalEarnings])
  {
    hide Fold;
    SafeAddIs(v.totalProven, totalEarnings);
    WithdrawnAtMostProven(v, account);
    TotalMonotone(v.withdrawn, v.earnings);
  }

  /** The signature is well formed, and recovers to the signer for the message that names the recipient, the amount,
      this contract, and what the signer has withdrawn so far. */
  ghost predicate IsSignedFor(v: Vault, ecrecover: Recover, recipient: Address, signer: Address, amount: Word,
                              signature: Signature)
  {
    && signature.length == 65 && signature.v in {0, 1, 27, 28}
    && ecrecover(Message(recipient, amount, v.self, Get(v.withdrawn, signer)), signature) == signer
  }

  lemma SignatureIsAcceptedExactlyWhen(v: Vault, ecrecover: Recover, recipient: Address, signer: Address,
                                       amount: Word, signature: Signature)
    ensures CheckSignature(v, ecrecover, recipient, signer, amount, signature).Success? <==>
            IsSignedFor(v, ecrecover, recipient, signer, amount, signature)
  {
  }

  /** A signed withdrawal is signed by the account it is taken from; zero stands for all there is. */
  ghost predicate IsAuthorized(v: Vault, ecrecover: Recover, tx: Tx) {
    match tx.call
    case WithdrawToSigned(recipient, signer, amount, signature) =>
      IsSignedFor(v, ecrecover, recipient, signer, amount, signature)
    case WithdrawAllToSigned(recipient, signer, signature, _, _, _) =>
      IsSignedFor(v, ecrecover, recipient, signer, 0, signature)
    case ProveAndWithdrawToSigned(recipient, signer, amount, signature, _, _, _) =>
      IsSignedFor(v, ecrecover, recipient, signer, amount, signature)
    case _ => true
  }

  /** What the account has proven once the call has proven what it starts by proving. */
  function EarningsOf(v: Vault, tx: Tx): nat {
    match ProofOf(tx.call)
    case Some((_, totalEarnings, _)) => totalEarnings
    case None => Get(v.earnings, AccountOf(tx))
  }

  ghost predicate ProofIsGood(v: Vault, tx: Tx) {
    match ProofOf(tx.call)
    case Some((blockNumber, totalEarnings, proof)) =>
      CanProve(v, tx.now, AccountOf(tx), blockNumber, totalEarnings, proof)
    case None => true
  }

  /** The call pays something, no more than has been earned, to somebody. */
  ghost predicate IsCovered(v: Vault, tx: Tx) {
    && 0 < AmountOf(v, tx) && Get(v.withdrawn, AccountOf(tx)) + AmountOf(v, tx) <= EarningsOf(v, tx)
    && RecipientOf(tx) != Some(ZERO_ADDRESS)
  }

  lemma WithdrawnAreProven(v: Vault, account: Address)
    requires Accounted(v)
    ensures Get(v.withdrawn, account) <= Get(v.earnings, account)
  {
  }

  /** What proving leaves for the payment after it. */
  lemma ProvenIsReady(v: Vault, now: nat, account: Address, blockNumber: nat, totalEarnings: Word, proof: seq<Digest>)
    requires Accounted(v) && CanProve(v, now, account, blockNumber, totalEarnings, proof)
    ensures ProveBalance(v, now, blockNumber, account, totalEarnings, proof).Success?
    ensures var mid := ProveBalance(v, now, blockNumber, account, totalEarnings, proof).value;
            Accounted(mid) && mid.withdrawn == v.withdrawn && Get(mid.earnings, account) == totalEarnings
    ensures Get(v.withdrawn, account) < totalEarnings
  {
    ProveSucceedsExactlyWhen(v, now, account, blockNumber, totalEarnings, proof);
    ProvingOnlyProves(v, now, blockNumber, account, totalEarnings, proof);
    hide ProveBalance, ProvenByProof, Grown;
    WithdrawnAreProven(v, account);
  }

  lemma AllSucceedsExactlyWhen(v: Vault, now: nat, recipient: Address, account: Address, blockNumber: nat,
                               totalEarnings: Word, proof: seq<Digest>)
    requires Accounted(v)
    ensures ProveAndWithdrawAll(v, now, recipient, account, blockNumber, totalEarnings, proof).Success? <==>
            CanProve(v, now, account, blockNumber, totalEarnings, proof) && recipient != ZERO_ADDRESS
    ensures CanProve(v, now, account, blockNumber, totalEarnings, proof) ==> Get(v.withdrawn, account) < totalEarnings
  {
    hide Accounted, CanProve, ProveBalance, DoWithdraw;
    ProveSucceedsExactlyWhen(v, now, account, blockNumber, totalEarnings, proof);
    if CanProve(v, now, account, blockNumber, totalEarnings, proof) {
      ProvenIsReady(v, now, account, blockNumber, totalEarnings, proof);
      WithdrawSucceedsExactlyWhen(ProveBalance(v, now, blockNumber, account, totalEarnings, proof).value, recipient,
                                  account, totalEarnings - Get(v.withdrawn, account));
    }
  }

  lemma ProveAndPaySucceedsExactlyWhen(v: Vault, now: nat, recipient: Address, account: Address, amount: Word,
                                       blockNumber: nat, totalEarnings: Word, proof: seq<Digest>)
    requires Accounted(v)
    ensures var proving := ProveBalance(v, now, blockNumber, account, totalEarnings, proof);
            proving.Success? && DoWithdraw(proving.value, recipient, account, amount).Success? <==>
            && CanProve(v, now, account, blockNumber, totalEarnings, proof)
            && 0 < amount && Get(v.withdrawn, account) + amount <= totalEarnings && recipient != ZERO_ADDRESS
  {
    hide Accounted, CanProve, ProveBalance, DoWithdraw;
    ProveSucceedsExactlyWhen(v, now, account, blockNumber, totalEarnings, proof);
    if CanProve(v, now, account, blockNumber, totalEarnings, proof) {
      ProvenIsReady(v, now, account, blockNumber, totalEarnings, proof);
      WithdrawSucceedsExactlyWhen(ProveBalance(v, now, blockNumber, account, totalEarnings, proof).value, recipient,
                                  account, amount);
    }
  }

  /** A withdrawal succeeds exactly when it is authorized, its proof if it has one is good, and it is covered. */
  lemma WithdrawalSucceedsExactlyWhen(v: Vault, ecrecover: Recover, tx: Tx)
    requires Accounted(v) && RecipientOf(tx).Some?
    ensures Execute(v, ecrecover, tx).Success? <==>
            IsAuthorized(v, ecrecover, tx) && ProofIsGood(v, tx) && IsCovered(v, tx)
  {
    hide Accounted, CanProve, IsSignedFor, DoWithdraw, ProveBalance, ProveAndWithdrawAll, CheckSignature;
    match tx.call {
      case Withdraw(a) => WithdrawSucceedsExactlyWhen(v, tx.sender, tx.sender, a);
      case WithdrawFor(r, a) => WithdrawSucceedsExactlyWhen(v, r, r, a);
      case WithdrawTo(r, a) => WithdrawSucceedsExactlyWhen(v, r, tx.sender, a);
      case WithdrawToSigned(r, signer, a, s) =>
        SignatureIsAcceptedExactlyWhen(v, ecrecover, r, signer, a, s);
        WithdrawSucceedsExactlyWhen(v, r, signer, a);
      case WithdrawAll(b, t, p) => AllSucceedsExactlyWhen(v, tx.now, tx.sender, tx.sender, b, t, p);
      case WithdrawAllFor(r, b, t, p) => AllSucceedsExactlyWhen(v, tx.now, r, r, b, t, p);
      case WithdrawAllTo(r, b, t, p) => AllSucceedsExactlyWhen(v, tx.now, r, tx.sender, b, t, p);
      case WithdrawAllToSigned(r, signer, s, b, t, p) =>
        SignatureIsAcceptedExactlyWhen(v, ecrecover, r, signer, 0, s);
        AllSucceedsExactlyWhen(v, tx.now, r, signer, b, t, p);
      case ProveAndWithdrawToSigned(r, signer, a, s, b, t, p) =>
        SignatureIsAcceptedExactlyWhen(v, ecrecover, r, signer, a, s);
        ProveAndPaySucceedsExactlyWhen(v, tx.now, r, signer, a, b, t, p);
      case _ => assert false;
    }
  }

  // ----- how it fails

  function SignatureError(signature: Signature): Error {
    if signature.length != 65 then BadSignatureLength
    else if signature.v !in {0, 1, 27, 28} then BadSignatureVersion
    else BadSignature
  }

  function ProofError(v: Vault, now: nat, account: Address, blockNumber: nat, totalEarnings: Word,
                      proof: seq<Digest>): Error {
    if blockNumber !in v.committedHash || v.committedHash[blockNumber] == Zero then BlockNotFound
    else if |proof| > 255 then OutOfGas
    else if Fold(LeafHash(account, totalEarnings, blockNumber), proof) != v.committedHash[blockNumber] then BadProof
    else if IsFrozen(v, now, blockNumber) then Frozen
    else if totalEarnings <= Get(v.earnings, account) then OldEarnings
    else if v.totalProven + totalEarnings >= TWO_256 then Overflow
    else MissingBalance
  }

  function PaymentError(withdrawn: nat, amount: int, earnings: nat): Error {
    if amount == 0 then ZeroWithdraw
    else if withdrawn + amount >= TWO_256 then Overflow
    else if withdrawn + amount > earnings then Overdraft
    else TransferFailed
  }

  lemma ProveFailsWith(v: Vault, now: nat, account: Address, blockNumber: nat, totalEarnings: Word, proof: seq<Digest>)
    requires Accounted(v) && !CanProve(v, now, account, blockNumber, totalEarnings, proof)
    ensures ProveBalance(v, now, blockNumber, account, totalEarnings, proof) ==
            Failure(ProofError(v, now, account, blockNumber, totalEarnings, proof))
  {
    hide Fold;
    SafeAddIs(v.totalProven, totalEarnings);
    WithdrawnAtMostProven(v, account);
    TotalMonotone(v.withdrawn, v.earnings);
  }

  lemma PaymentFailsWith(v: Vault, recipient: Address, account: Address, amount: Word)
    requires Accounted(v) && DoWithdraw(v, recipient, account, amount).Failure?
    ensures DoWithdraw(v, recipient, account, amount) ==
            Failure(PaymentError(Get(v.withdrawn, account), amount, Get(v.earnings, account)))
  {
    WithdrawnAtMostProven(v, account);
    TotalMonotone(v.withdrawn, v.earnings);
    TotalWithout(v.withdrawn, account);
    SafeAddIs(Get(v.withdrawn, account), amount);
    SafeAddIs(v.totalWithdrawn, amount);
  }

  lemma SignatureFailsWith(v: Vault, ecrecover: Recover, recipient: Address, signer: Address, amount: Word,
                           signature: Signature)
    requires !IsSignedFor(v, ecrecover, recipient, signer, amount, signature)
    ensures CheckSignature(v, ecrecover, recipient, signer, amount, signature) == Failure(SignatureError(signature))
  {
  }

  lemma AllFailsWith(v: Vault, now: nat, recipient: Address, account: Address, blockNumber: nat, totalEarnings: Word,
                     proof: seq<Digest>)
    requires Accounted(v)
    requires ProveAndWithdrawAll(v, now, recipient, account, blockNumber, totalEarnings, proof).Failure?
    ensures ProveAndWithdrawAll(v, now, recipient, account, blockNumber, totalEarnings, proof) ==
            Failure(if CanProve(v, now, account, blockNumber, totalEarnings, proof) then TransferFailed
                    else ProofError(v, now, account, blockNumber, totalEarnings, proof))
  {
    hide Accounted, CanProve, ProveBalance, DoWithdraw, ProofError;
    if CanProve(v, now, account, blockNumber, totalEarnings, proof) {
      ProvenIsReady(v, now, account, blockNumber, totalEarnings, proof);
      PaymentFailsWith(ProveBalance(v, now, blockNumber, account, totalEarnings, proof).value, recipient, account,
                       totalEarnings - Get(v.withdrawn, account));
    } else {
      ProveFailsWith(v, now, account, blockNumber, totalEarnings, proof);
    }
  }

  /** A failed withdrawal fails with the error of its first check that fails: the signature, then the proof, then the
      payment. */
  lemma WithdrawalFailsWithFirst(v: Vault, ecrecover: Recover, tx: Tx)
    requires Accounted(v) && RecipientOf(tx).Some? && Execute(v, ecrecover, tx).Failure?
    ensures Execute(v, ecrecover, tx) ==
            Failure(if !IsAuthorized(v, ecrecover, tx) then SignatureError(AuthorizationOf(v, tx.call).value.2)
                    else if !ProofIsGood(v, tx) then
                      var (n, e, p) := ProofOf(tx.call).value; ProofError(v, tx.now, AccountOf(tx), n, e, p)
                    else PaymentError(Get(v.withdrawn, AccountOf(tx)), AmountOf(v, tx), EarningsOf(v, tx)))
  {
    hide Accounted, CanProve, IsSignedFor, DoWithdraw, ProveBalance, ProveAndWithdrawAll, CheckSignature,
         SignatureError, ProofError;
    match tx.call {
      case Withdraw(a) => PaymentFailsWith(v, tx.sender, tx.sender, a);
      case WithdrawFor(r, a) => PaymentFailsWith(v, r, r, a);
      case WithdrawTo(r, a) => PaymentFailsWith(v, r, tx.sender, a);
      case WithdrawToSigned(r, signer, a, s) =>
        SignatureFails(v, ecrecover, r, signer, a, s);
        if IsSignedFor(v, ecrecover, r, signer, a, s) {
          PaymentFailsWith(v, r, signer, a);
        }
      case WithdrawAll(b, t, p) => AllFailsInStages(v, tx.now, tx.sender, tx.sender, b, t, p);
      case WithdrawAllFor(r, b, t, p) => AllFailsInStages(v, tx.now, r, r, b, t, p);
      case WithdrawAllTo(r, b, t, p) => AllFailsInStages(v, tx.now, r, tx.sender, b, t, p);
      case WithdrawAllToSigned(r, signer, s, b, t, p) =>
        SignatureFails(v, ecrecover, r, signer, 0, s);
        if IsSignedFor(v, ecrecover, r, signer, 0, s) {
          AllFailsInStages(v, tx.now, r, signer, b, t, p);
        }
      case ProveAndWithdrawToSigned(r, signer, a, s, b, t, p) =>
        SignatureFails(v, ecrecover, r, signer, a, s);
        if IsSignedFor(v, ecrecover, r, signer, a, s) {
          ProveAndPayFailsInStages(v, tx.now, r, signer, a, b, t, p);
        }
      case _ => assert false;
    }
  }

  lemma SignatureFails(v: Vault, ecrecover: Recover, recipient: Address, signer: Address, amount: Word,
                       signature: Signature)
    ensures if IsSignedFor(v, ecrecover, recipient, signer, amount, signature)
            then CheckSignature(v, ecrecover, recipient, signer, amount, signature).Success?
            else CheckSignature(v, ecrecover, recipient, signer, amount, signature) ==
                 Failure(SignatureError(signature))
  {
    hide IsSignedFor, CheckSignature, SignatureError;
    SignatureIsAcceptedExactlyWhen(v, ecrecover, recipient, signer, amount, signature);
    if !IsSignedFor(v, ecrecover, recipient, signer, amount, signature) {
      SignatureFailsWith(v, ecrecover, recipient, signer, amount, signature);
    }
  }

  lemma AllFailsInStages(v: Vault, now: nat, recipient: Address, account: Address, blockNumber: nat,
                         totalEarnings: Word, proof: seq<Digest>)
    requires Accounted(v)
    requires ProveAndWithdrawAll(v, now, recipient, account, blockNumber, totalEarnings, proof).Failure?
    ensures ProveAndWithdrawAll(v, now, recipient, account, blockNumber, totalEarnings, proof) ==
            Failure(if !CanProve(v, now, account, blockNumber, totalEarnings, proof)
                    then ProofError(v, now, account, blockNumber, totalEarnings, proof)
                    else PaymentError(Get(v.withdrawn, account), totalEarnings - Get(v.withdrawn, account),
                                      totalEarnings))
  {
    hide Accounted, CanProve, ProveAndWithdrawAll, ProofError;
    AllFailsWith(v, now, recipient, account, blockNumber, totalEarnings, proof);
    AllSucceedsExactlyWhen(v, now, recipient, account, blockNumber, totalEarnings, proof);
  }

  lemma ProveAndPayFailsInStages(v: Vault, now: nat, recipient: Address, account: Address, amount: Word,
                                 blockNumber: nat, totalEarnings: Word, proof: seq<Digest>)
    requires Accounted(v)
    ensures match ProveBalance(v, now, blockNumber, account, totalEarnings, proof)
            case Failure(e) =>
              && !CanProve(v, now, account, blockNumber, totalEarnings, proof)
              && e == ProofError(v, now, account, blockNumber, totalEarnings, proof)
            case Success(mid) =>
              && CanProve(v, now, account, blockNumber, totalEarnings, proof)
              && (DoWithdraw(mid, recipient, account, amount).Failure? ==>
                    DoWithdraw(mid, recipient, account, amount) ==
                    Failure(PaymentError(Get(v.withdrawn, account), amount, totalEarnings)))
  {
    hide Accounted, CanProve, ProveBalance, DoWithdraw, ProofError;
    ProveSucceedsExactlyWhen(v, now, account, blockNumber, totalEarnings, proof);
    if CanProve(v, now, account, blockNumber, totalEarnings, proof) {
      ProvenIsReady(v, now, account, blockNumber, totalEarnings, proof);
      var mid := ProveBalance(v, now, blockNumber, account, totalEarnings, proof).value;
      if DoWithdraw(mid, recipient, account, amount).Failure? {
        PaymentFailsWith(mid, recipient, account, amount);
      }
    } else {
      ProveFailsWith(v, now, account, blockNumber, totalEarnings, proof);
    }
  }

  // ----- what a call does

  /** Tokens go from one address to another, or appear, and nobody else's balance changes. */
  ghost predicate Moves(before: map<Address, nat>, after: map<Address, nat>, from: Option<Address>, to: Address,
                        amount: nat)
  {
    forall a :: Get(after, a) ==
                Get(before, a) - (if from == Some(a) then amount else 0) + (if a == to then amount else 0)
  }

  lemma TransferMoves(tokens: map<Address, nat>, from: Address, to: Address, amount: nat)
    ensures TokenTransfer(tokens, from, to, amount).Success? <==> to != ZERO_ADDRESS && amount <= Get(tokens, from)
    ensures TokenTransfer(tokens, from, to, amount).Success? ==>
              Moves(tokens, TokenTransfer(tokens, from, to, amount).value, Some(from), to, amount)
  {
  }

  /** A withdrawal adds its amount to what its account has withdrawn, sends exactly that from the vault to its
      recipient, and sets the account's earnings to what it proves. Nothing else changes for anybody. */
  lemma WithdrawalPays(v: Vault, ecrecover: Recover, tx: Tx)
    requires Accounted(v) && RecipientOf(tx).Some? && Execute(v, ecrecover, tx).Success?
    ensures AmountOf(v, tx) > 0
    ensures var w, account, amount := Apply(v, ecrecover, tx), AccountOf(tx), AmountOf(v, tx);
            && w.withdrawn == v.withdrawn[account := Get(v.withdrawn, account) + amount]
            && w.totalWithdrawn == v.totalWithdrawn + amount
            && Moves(v.tokens, w.tokens, Some(v.self), RecipientOf(tx).value, amount)
            && w.earnings == (if ProofOf(tx.call).Some? then v.earnings[account := EarningsOf(v, tx)] else v.earnings)
            && w == v.(totalProven := w.totalProven, earnings := w.earnings, withdrawn := w.withdrawn,
                       totalWithdrawn := w.totalWithdrawn, tokens := w.tokens)
  {
    hide Accounted, Execute, Grown, ProvenByProof, DoWithdraw, ProveBalance, TokenTransfer, CanProve, RecipientOf,
         AccountOf, AmountOf, ProofOf, Moves;
    var mid, account, amount := WithdrawalIsProveThenPay(v, ecrecover, tx);
    match ProofOf(tx.call) {
      case Some((n, t, p)) => ProveSucceedsExactlyWhen(v, tx.now, account, n, t, p);
      case None =>
    }
    WithdrawSucceedsExactlyWhen(mid, RecipientOf(tx).value, account, amount);
    PaymentMoves(mid, RecipientOf(tx).value, account, amount);
  }

  lemma PaymentMoves(v: Vault, recipient: Address, account: Address, amount: Word)
    requires DoWithdraw(v, recipient, account, amount).Success?
    ensures var w := DoWithdraw(v, recipient, account, amount).value;
            && Moves(v.tokens, w.tokens, Some(v.self), recipient, amount)
            && w == v.(withdrawn := w.withdrawn, totalWithdrawn := w.totalWithdrawn, tokens := w.tokens)
  {
    hide TokenTransfer, Moves;
    TransferMoves(v.tokens, v.self, recipient, amount);
  }

  /** Anyone may prove anyone's earnings; that pays nothing. */
  lemma ProveCallSucceedsExactlyWhen(v: Vault, ecrecover: Recover, tx: Tx)
    requires Accounted(v) && tx.call.Prove?
    ensures var call := tx.call;
            && (Execute(v, ecrecover, tx).Success? <==>
                CanProve(v, tx.now, call.account, call.blockNumber, call.balance, call.proof))
            && (Execute(v, ecrecover, tx).Success? ==>
                  Apply(v, ecrecover, tx) ==
                  v.(totalProven := v.totalProven - Get(v.earnings, call.account) + call.balance,
                     earnings := v.earnings[call.account := call.balance]))
  {
    hide Accounted, CanProve, ProveBalance;
    ProveSucceedsExactlyWhen(v, tx.now, tx.call.account, tx.call.blockNumber, tx.call.balance, tx.call.proof);
  }

  /** Operator and fee change exactly when the owner says so, to what the owner says, a fee only within bounds; and
      the owner stays. */
  lemma RolesFollowTheOwner(v: Vault, ecrecover: Recover, tx: Tx)
    requires Accounted(v)
    ensures var w := Apply(v, ecrecover, tx);
            && w.owner == v.owner && w.self == v.self && w.blockFreezeSeconds == v.blockFreezeSeconds
            && w.operator ==
               (if tx.call.SetOperator? && tx.sender == v.owner then tx.call.newOperator else v.operator)
            && w.adminFee == (if tx.call.SetAdminFee? && tx.sender == v.owner && tx.call.newAdminFee <= ONE_ETHER
                              then tx.call.newAdminFee else v.adminFee)
  {
    hide Accounted, Execute, CanProve, Moves;
    if RecipientOf(tx).Some? {
      if Execute(v, ecrecover, tx).Success? {
        WithdrawalPays(v, ecrecover, tx);
      }
    } else if tx.call.Prove? {
      ProveCallSucceedsExactlyWhen(v, ecrecover, tx);
    } else {
      OtherCallsSetRoles(v, ecrecover, tx);
    }
  }

  lemma OtherCallsSetRoles(v: Vault, ecrecover: Recover, tx: Tx)
    requires RecipientOf(tx).None? && !tx.call.Prove?
    ensures var w := Apply(v, ecrecover, tx);
            && w.owner == v.owner && w.self == v.self && w.blockFreezeSeconds == v.blockFreezeSeconds
            && w.operator ==
               (if tx.call.SetOperator? && tx.sender == v.owner then tx.call.newOperator else v.operator)
            && w.adminFee == (if tx.call.SetAdminFee? && tx.sender == v.owner && tx.call.newAdminFee <= ONE_ETHER
                              then tx.call.newAdminFee else v.adminFee)
  {
    hide DoWithdraw, ProveBalance, ProveAndWithdrawAll, CheckSignature, TokenTransfer, HashAt, RecipientOf;
    match tx.call
    case Commit(_, _) =>
    case SetOperator(_) =>
    case SetAdminFee(_) =>
    case TransferTokens(_, _) =>
    case MintTokens(_, _) =>
    case _ => OnlyWithdrawalsPay(tx);
  }

  lemma OnlyWithdrawalsPay(tx: Tx)
    requires RecipientOf(tx).None?
    ensures tx.call.Commit? || tx.call.Prove? || tx.call.SetOperator? || tx.call.SetAdminFee?
            || tx.call.TransferTokens? || tx.call.MintTokens?
  {
  }

  /** What a transaction moves in the token contract: from whom, to whom, and how much. */
  function MovedBy(v: Vault, ecrecover: Recover, tx: Tx): (Option<Address>, Address, int) {
    if Execute(v, ecrecover, tx).Failure? then (None, ZERO_ADDRESS, 0)
    else
      match RecipientOf(tx)
      case Some(recipient) => (Some(v.self), recipient, AmountOf(v, tx))
      case None =>
        match tx.call
        case TransferTokens(to, amount) => (Some(tx.sender), to, amount)
        case MintTokens(to, amount) => (None, to, amount)
        case _ => (None, ZERO_ADDRESS, 0)
  }

  /** A transaction moves exactly these tokens: a withdrawal out of the vault, a transfer out of its sender's account,
      nothing otherwise. */
  lemma TokensMove(v: Vault, ecrecover: Recover, tx: Tx)
    requires Accounted(v)
    ensures MovedBy(v, ecrecover, tx).2 >= 0
    ensures var (from, to, amount) := MovedBy(v, ecrecover, tx);
            Moves(v.tokens, Apply(v, ecrecover, tx).tokens, from, to, amount)
  {
    hide Accounted, DoWithdraw, ProveBalance, ProveAndWithdrawAll, CheckSignature, TokenTransfer, HashAt, Moves;
    NothingMoves(v.tokens);
    if Execute(v, ecrecover, tx).Success? {
      if RecipientOf(tx).Some? {
        WithdrawalPays(v, ecrecover, tx);
      } else if tx.call.Prove? {
        ProveCallSucceedsExactlyWhen(v, ecrecover, tx);
      } else if tx.call.TransferTokens? {
        TransferMoves(v.tokens, tx.sender, tx.call.to, tx.call.amount);
      } else if tx.call.MintTokens? {
        MintMoves(v.tokens, tx.call.to, tx.call.amount);
      }
    }
  }

  lemma NothingMoves(tokens: map<Address, nat>)
    ensures Moves(tokens, tokens, None, ZERO_ADDRESS, 0)
  {
  }

  lemma MintMoves(tokens: map<Address, nat>, to: Address, amount: nat)
    ensures Moves(tokens, tokens[to := Get(tokens, to) + amount], None, to, amount)
  {
  }

  /** How the other calls fail: a commit over a root or by another than the operator, a role or fee set by another than
      the owner or out of bounds, a transfer to nobody or of more than there is. */
  lemma OtherCallsFailExactlyWhen(v: Vault, ecrecover: Recover, tx: Tx)
    requires RecipientOf(tx).None? && !tx.call.Prove?
    ensures match Execute(v, ecrecover, tx)
            case Success(_) => true
            case Failure(e) => Some(e) == RefusalOf(v, tx)
    ensures Execute(v, ecrecover, tx).Failure? <==> RefusalOf(v, tx).Some?
  {
  }

  function RefusalOf(v: Vault, tx: Tx): Option<Error> {
    match tx.call
    case Commit(blockNumber, _) =>
      if blockNumber in v.committedHash && v.committedHash[blockNumber] != Zero then Some(Overwrite)
      else if tx.sender != v.operator then Some(NotPermitted)
      else None
    case SetOperator(_) => if tx.sender != v.owner then Some(OnlyOwner) else None
    case SetAdminFee(newAdminFee) =>
      if tx.sender != v.owner then Some(OnlyOwner) else if newAdminFee > ONE_ETHER then Some(BadAdminFee) else None
    case TransferTokens(to, amount) =>
      if to == ZERO_ADDRESS || amount > Get(v.tokens, tx.sender) then Some(TransferFailed) else None
    case _ => None
  }

  // ----- consent

  /** The account acts: it sends the transaction, or the transaction relies on its signature. */
  ghost predicate ActsIn(v: Vault, ecrecover: Recover, tx: Tx, account: Address) {
    || tx.sender == account
    || (AuthorizationOf(v, tx.call).Some? && AccountOf(tx) == account && IsAuthorized(v, ecrecover, tx))
  }

  /** What an account has earned leaves the vault for anybody else only if the account acts; without that it goes to
      the account itself, or stays. */
  lemma PaysOthersOnlyByConsent(v: Vault, ecrecover: Recover, tx: Tx, account: Address)
    requires Accounted(v) && Get(Apply(v, ecrecover, tx).withdrawn, account) != Get(v.withdrawn, account)
    ensures Execute(v, ecrecover, tx).Success? && RecipientOf(tx).Some? && AccountOf(tx) == account
    ensures Get(Apply(v, ecrecover, tx).withdrawn, account) == Get(v.withdrawn, account) + AmountOf(v, tx)
    ensures ActsIn(v, ecrecover, tx, account) || RecipientOf(tx) == Some(account)
  {
    hide Accounted, Execute, IsSignedFor, ProofIsGood, IsCovered;
    if RecipientOf(tx).None? {
      OthersWithdrawNothing(v, ecrecover, tx);
    } else if Execute(v, ecrecover, tx).Success? {
      WithdrawalPays(v, ecrecover, tx);
      WithdrawalSucceedsExactlyWhen(v, ecrecover, tx);
    }
  }

  lemma OthersWithdrawNothing(v: Vault, ecrecover: Recover, tx: Tx)
    requires Accounted(v) && RecipientOf(tx).None?
    ensures Apply(v, ecrecover, tx).withdrawn == v.withdrawn
  {
    hide Accounted, Execute;
    if tx.call.Prove? {
      ProveCallSucceedsExactlyWhen(v, ecrecover, tx);
    } else {
      OtherCallsLeaveAccounts(v, ecrecover, tx);
    }
  }

  /** Without an account acting, a transaction brings it at least as many tokens as it takes from its earnings. */
  lemma GoesHome(v: Vault, ecrecover: Recover, tx: Tx, account: Address)
    requires Accounted(v) && tx.sender != v.self && account != v.self && !ActsIn(v, ecrecover, tx, account)
    ensures var w := Apply(v, ecrecover, tx);
            Get(w.tokens, account) - Get(v.tokens, account) >=
            Get(w.withdrawn, account) - Get(v.withdrawn, account) >= 0
  {
    hide Accounted, Execute, IsAuthorized, AuthorizationOf;
    TokensMove(v, ecrecover, tx);
    if Get(Apply(v, ecrecover, tx).withdrawn, account) != Get(v.withdrawn, account) {
      PaysOthersOnlyByConsent(v, ecrecover, tx, account);
      WithdrawalPays(v, ecrecover, tx);
    }
  }

  /** In every run in which an account does not act, whoever else does what, everything that is withdrawn of its
      earnings arrives in its own token balance. */
  lemma {:induction false} WithoutConsentAllGoesHome(v: Vault, ecrecover: Recover, txs: seq<Tx>, n: nat,
                                                     account: Address)
    requires Accounted(v) && FromOutside(v, txs) && n <= |txs| && account != v.self
    requires forall i :: 0 <= i < n ==> !ActsIn(After(v, ecrecover, txs, i), ecrecover, txs[i], account)
    ensures var w := After(v, ecrecover, txs, n);
            Get(w.tokens, account) - Get(v.tokens, account) >=
            Get(w.withdrawn, account) - Get(v.withdrawn, account) >= 0
  {
    hide Accounted, Grown, Apply, ActsIn;
    if n > 0 {
      WithoutConsentAllGoesHome(v, ecrecover, txs, n - 1, account);
      RunKeepsAccounts(v, ecrecover, txs, n - 1, n - 1);
      GoesHome(After(v, ecrecover, txs, n - 1), ecrecover, txs[n - 1], account);
    }
  }

  // ----- signatures

  /** A signature that is good for one message is good for one recipient, one amount, and one contract: whatever the
      two vaults and calls are in which it is accepted. */
  lemma SignatureBindsPayment(v1: Vault, tx1: Tx, m1: Message, v2: Vault, tx2: Tx, m2: Message, ecrecover: Recover,
                              signer: Address, signature: Signature)
    requires Accepted(v1, ecrecover, tx1, signer, m1, signature)
    requires Accepted(v2, ecrecover, tx2, signer, m2, signature)
    requires SignsOneMessage(ecrecover, signer, signature)
    ensures RecipientOf(tx1) == RecipientOf(tx2) && v1.self == v2.self && AccountOf(tx1) == AccountOf(tx2)
    ensures Get(v1.withdrawn, signer) == Get(v2.withdrawn, signer)
    ensures m1.amount > 0 ==> AmountOf(v1, tx1) == AmountOf(v2, tx2)
  {
    hide Accepted, AccountOf, RecipientOf, AmountOf;
    SignatureRecovers(v1, ecrecover, tx1, signer, m1, signature);
    SignatureRecovers(v2, ecrecover, tx2, signer, m2, signature);
  }

  /** The operator at the end of a run is the one the owner appointed last. */
  function LastAppointed(txs: seq<Tx>, n: nat, owner: Address, initially: Address): Address
    requires n <= |txs|
  {
    if n == 0 then initially
    else if txs[n - 1].call.SetOperator? && txs[n - 1].sender == owner then txs[n - 1].call.newOperator
    else LastAppointed(txs, n - 1, owner, initially)
  }

  lemma {:induction false} OperatorIsLastAppointed(v: Vault, ecrecover: Recover, txs: seq<Tx>, n: nat)
    requires Accounted(v) && FromOutside(v, txs) && n <= |txs|
    ensures After(v, ecrecover, txs, n).owner == v.owner
    ensures After(v, ecrecover, txs, n).operator == LastAppointed(txs, n, v.owner, v.operator)
  {
    hide Accounted, Grown, Apply;
    if n > 0 {
      OperatorIsLastAppointed(v, ecrecover, txs, n - 1);
      RunKeepsAccounts(v, ecrecover, txs, n - 1, n - 1);
      RolesFollowTheOwner(After(v, ecrecover, txs, n - 1), ecrecover, txs[n - 1]);
    }
  }
}
