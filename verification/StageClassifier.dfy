/** How the resume stager reads the root stage: six files are published one after the other,
    and a listing of the two directories is accepted only where such a run can have stopped. */
module StageClassifier {
  import opened Text

  datatype Artifact =
    | TransactionController
    | TransactionPin
    | TransactionIdentity
    | TransactionBootstrap
    | RecoveryController
    | RecoveryPin

  /** The order of publication. */
  const ARTIFACTS: seq<Artifact> := [
    TransactionController, TransactionPin, TransactionIdentity, TransactionBootstrap,
    RecoveryController, RecoveryPin
  ]

  /** The first four live in the support directory, the others in its parent. */
  const TRANSACTION: nat := 4

  datatype Child = Support | Final(artifact: Artifact) | Pending(artifact: Artifact) | Abort

  function Leaf(child: Child): string {
    match child
    case Support => "controller-ea5a600cf397995156907bc1609b68d6"
    case Abort => "bootstrap-abort-result.txt"
    case Final(TransactionController) => "controller"
    case Final(TransactionPin) => "controller.sha256"
    case Final(TransactionIdentity) => "controller-identity.txt"
    case Final(TransactionBootstrap) => "bootstrap-request.txt"
    case Final(RecoveryController) => "recovery-controller"
    case Final(RecoveryPin) => "recovery-controller.sha256"
    case Pending(TransactionController) => ".controller.pending"
    case Pending(TransactionPin) => ".controller.sha256.pending"
    case Pending(TransactionIdentity) => ".controller-identity.txt.pending"
    case Pending(TransactionBootstrap) => ".bootstrap-request.txt.pending"
    case Pending(RecoveryController) => ".recovery-controller.pending"
    case Pending(RecoveryPin) => ".recovery-controller.sha256.pending"
  }

  /** A name's length and first character tell the fourteen names apart. */
  function Shape(child: Child): (nat, char) {
    match child
    case Support => (43, 'c')
    case Abort => (26, 'b')
    case Final(TransactionController) => (10, 'c')
    case Final(TransactionPin) => (17, 'c')
    case Final(TransactionIdentity) => (23, 'c')
    case Final(TransactionBootstrap) => (21, 'b')
    case Final(RecoveryController) => (19, 'r')
    case Final(RecoveryPin) => (26, 'r')
    case Pending(TransactionController) => (19, '.')
    case Pending(TransactionPin) => (26, '.')
    case Pending(TransactionIdentity) => (32, '.')
    case Pending(TransactionBootstrap) => (30, '.')
    case Pending(RecoveryController) => (28, '.')
    case Pending(RecoveryPin) => (35, '.')
  }

  lemma LeafShape(child: Child)
    ensures |Leaf(child)| == Shape(child).0 > 0 && Leaf(child)[0] == Shape(child).1
  {
  }

  lemma LeavesDiffer(a: Child, b: Child)
    requires Leaf(a) == Leaf(b)
    ensures a == b
  {
    hide Leaf;
    LeafShape(a);
    LeafShape(b);
  }

  // ---------------------------------------------------------------- the legal listings

  datatype Prefix =
    | LocatorAndEmptyControllerParent
    | TransactionSupportDirectory
    | TransactionControllerDone
    | TransactionControllerPin
    | TransactionControllerIdentity
    | TransactionBootstrapRequest
    | FixedRecoveryController
    | Complete
    | Partial(artifact: Artifact)

  /** The prefix with `k` published files and no pending one. */
  function WholePrefix(k: nat): Prefix
    requires k <= 6
  {
    if k == 0 then TransactionSupportDirectory
    else if k == 1 then TransactionControllerDone
    else if k == 2 then TransactionControllerPin
    else if k == 3 then TransactionControllerIdentity
    else if k == 4 then TransactionBootstrapRequest
    else if k == 5 then FixedRecoveryController
    else Complete
  }

  function PrefixOf(k: nat, partial: bool): Prefix
    requires k <= 6 && (partial ==> k < 6)
  {
    if partial then Partial(ARTIFACTS[k]) else WholePrefix(k)
  }

  /** A file's place in the order. */
  function Place(artifact: Artifact): (i: nat)
    ensures i < |ARTIFACTS| && ARTIFACTS[i] == artifact
  {
    match artifact
    case TransactionController => 0
    case TransactionPin => 1
    case TransactionIdentity => 2
    case TransactionBootstrap => 3
    case RecoveryController => 4
    case RecoveryPin => 5
  }

  /** The published files from place `from` up to place `to`. */
  function Published(from: nat, to: nat): set<Child>
    requires to <= 6
  {
    if to <= from then {} else Published(from, to - 1) + {Final(ARTIFACTS[to - 1])}
  }

  function PendingAt(k: nat, here: bool): set<Child>
    requires here ==> k < 6
  {
    if here then {Pending(ARTIFACTS[k])} else {}
  }

  /** Exactly the children of the support directory once `k` files are published. */
  function SupportChildren(k: nat, partial: bool): set<Child>
    requires k <= 6 && (partial ==> k < 6)
  {
    Published(0, if k < TRANSACTION then k else TRANSACTION) + PendingAt(k, partial && k < TRANSACTION)
  }

  function ParentChildren(k: nat, partial: bool): set<Child>
    requires k <= 6 && (partial ==> k < 6)
  {
    {Support} + Published(TRANSACTION, k) + PendingAt(k, partial && k >= TRANSACTION)
  }

  lemma {:induction false} PublishedMeans(from: nat, to: nat)
    requires to <= 6
    ensures forall c :: c in Published(from, to) <==> c.Final? && from <= Place(c.artifact) < to
    ensures |Published(from, to)| == if to <= from then 0 else to - from
  {
    if to > from {
      PublishedMeans(from, to - 1);
      assert Place(ARTIFACTS[to - 1]) == to - 1;
    }
  }

  lemma PendingMeans(k: nat, here: bool)
    requires here ==> k < 6
    ensures forall c :: c in PendingAt(k, here) <==> c.Pending? && here && Place(c.artifact) == k
    ensures |PendingAt(k, here)| == if here then 1 else 0
  {
    if here {
      ArtifactsHaveTheirPlace();
    }
  }

  lemma SupportMeans(k: nat, partial: bool)
    requires k <= 6 && (partial ==> k < 6)
    ensures forall c :: c in SupportChildren(k, partial) <==>
              || (c.Final? && Place(c.artifact) < k && Place(c.artifact) < TRANSACTION)
              || (c.Pending? && partial && Place(c.artifact) == k && k < TRANSACTION)
    ensures |SupportChildren(k, partial)| ==
            (if k < TRANSACTION then k else TRANSACTION) + if partial && k < TRANSACTION then 1 else 0
  {
    hide Published, PendingAt, Place;
    PublishedMeans(0, if k < TRANSACTION then k else TRANSACTION);
    PendingMeans(k, partial && k < TRANSACTION);
    DisjointUnion(Published(0, if k < TRANSACTION then k else TRANSACTION), PendingAt(k, partial && k < TRANSACTION));
  }

  lemma ParentMeans(k: nat, partial: bool)
    requires k <= 6 && (partial ==> k < 6)
    ensures forall c :: c in ParentChildren(k, partial) <==>
              || c == Support
              || (c.Final? && TRANSACTION <= Place(c.artifact) < k)
              || (c.Pending? && partial && Place(c.artifact) == k && k >= TRANSACTION)
    ensures |ParentChildren(k, partial)| ==
            1 + (if k > TRANSACTION then k - TRANSACTION else 0) + if partial && k >= TRANSACTION then 1 else 0
  {
    hide Published, PendingAt, Place;
    PublishedMeans(TRANSACTION, k);
    PendingMeans(k, partial && k >= TRANSACTION);
    DisjointUnion({Support}, Published(TRANSACTION, k));
    DisjointUnion({Support} + Published(TRANSACTION, k), PendingAt(k, partial && k >= TRANSACTION));
  }

  lemma DisjointUnion<T>(a: set<T>, b: set<T>)
    requires a !! b
    ensures |a + b| == |a| + |b|
  {
  }

  function Names(children: set<Child>): set<string> {
    set c | c in children :: Leaf(c)
  }

  function Elements(s: seq<string>): set<string> {
    set x | x in s
  }

  predicate NoDuplicates(s: seq<string>) {
    |Elements(s)| == |s|
  }

  predicate Lists(names: seq<string>, children: set<Child>) {
    NoDuplicates(names) && Elements(names) == Names(children)
  }

  /** The two listings are what a staging run leaves at `prefix`; an abort result may stand
      beside a complete stage. */
  ghost predicate IsLegal(parent: seq<string>, support: seq<string>, prefix: Prefix) {
    if prefix == LocatorAndEmptyControllerParent then parent == [] && support == []
    else exists k: nat, partial: bool :: Stands(parent, support, prefix, k, partial)
  }

  predicate Stands(parent: seq<string>, support: seq<string>, prefix: Prefix, k: nat, partial: bool) {
    && k <= 6 && (partial ==> k < 6) && prefix == PrefixOf(k, partial)
    && Lists(parent, ParentChildren(k, partial))
    && (|| Lists(support, SupportChildren(k, partial))
        || (k == 6 && Lists(support, SupportChildren(6, false) + {Abort})))
  }

  // -------------------------------------------------------------------- the classifier

  const ALLOWED_PARENT: set<Child> :=
    {Support, Final(RecoveryController), Final(RecoveryPin), Pending(RecoveryController), Pending(RecoveryPin)}

  const ALLOWED_SUPPORT: set<Child> := {
    Final(TransactionController), Final(TransactionPin), Final(TransactionIdentity), Final(TransactionBootstrap),
    Pending(TransactionController), Pending(TransactionPin), Pending(TransactionIdentity),
    Pending(TransactionBootstrap), Abort}

  predicate Has(names: seq<string>, child: Child) {
    Leaf(child) in names
  }

  /** The loop over the four transaction files, from `index` on. */
  function TransactionScan(parent: seq<string>, support: seq<string>, index: nat): Option<Prefix>
    requires index <= TRANSACTION
    decreases TRANSACTION - index
  {
    var abort := Has(support, Abort);
    if index == TRANSACTION then
      if |support| != TRANSACTION + (if abort then 1 else 0) then None else RecoveryScan(parent, abort, 0)
    else
      var artifact := ARTIFACTS[index];
      if Has(support, Final(artifact)) then
        if Has(support, Pending(artifact)) then None else TransactionScan(parent, support, index + 1)
      else if Has(support, Pending(artifact)) then
        if abort || |support| != index + 1 || |parent| != 1 then None else Some(Partial(artifact))
      else if abort || |support| != index || |parent| != 1 then None
      else Some(WholePrefix(index))
  }

  /** The loop over the two recovery files, from `index` on. */
  function RecoveryScan(parent: seq<string>, abort: bool, index: nat): Option<Prefix>
    requires index <= 2
    decreases 2 - index
  {
    if index == 2 then if |parent| != 3 then None else Some(Complete)
    else
      var artifact := ARTIFACTS[TRANSACTION + index];
      if Has(parent, Final(artifact)) then
        if Has(parent, Pending(artifact)) then None else RecoveryScan(parent, abort, index + 1)
      else if Has(parent, Pending(artifact)) then
        if abort || |parent| != index + 2 then None else Some(Partial(artifact))
      else if abort || |parent| != index + 1 then None
      else Some(WholePrefix(TRANSACTION + index))
  }

  /** `classify_stage_child_observation` */
  function Classify(parent: seq<string>, support: seq<string>): Option<Prefix> {
    if !NoDuplicates(parent) || !NoDuplicates(support) || !(Elements(parent) <= Names(ALLOWED_PARENT)) then None
    else if !Has(parent, Support) then
      if parent == [] && support == [] then Some(LocatorAndEmptyControllerParent) else None
    else if !(Elements(support) <= Names(ALLOWED_SUPPORT)) then None
    else TransactionScan(parent, support, 0)
  }

  // ------------------------------------------------------------------- sound and complete

  lemma SameSize<T>(a: set<T>, b: set<T>)
    requires a <= b && |a| == |b|
    ensures a == b
  {
    if a != b {
      var x :| x in b && x !in a;
      SizeOfSubset(a, b - {x});
    }
  }

  lemma {:induction false} SizeOfSubset<T>(a: set<T>, b: set<T>)
    requires a <= b
    ensures |a| <= |b|
  {
    if a != {} {
      var x :| x in a;
      SizeOfSubset(a - {x}, b - {x});
    }
  }

  /** The names of a set of children are as many as the children. */
  lemma {:induction false} NamesSize(children: set<Child>)
    ensures |Names(children)| == |children|
  {
    hide Leaf;
    if children == {} {
      assert Names(children) == {};
    } else {
      var c :| c in children;
      NamesSize(children - {c});
      assert Leaf(c) !in Names(children - {c}) by {
        forall d | d in children - {c} ensures Leaf(d) != Leaf(c) {
          if Leaf(d) == Leaf(c) {
            LeavesDiffer(c, d);
          }
        }
      }
      assert Names(children) == Names(children - {c}) + {Leaf(c)};
    }
  }

  /** A listing that holds all of `children` and is no longer than them lists exactly them. */
  lemma ListsExactly(names: seq<string>, children: set<Child>)
    requires NoDuplicates(names) && |names| == |children|
    requires forall c :: c in children ==> Has(names, c)
    ensures Lists(names, children)
  {
    hide Leaf;
    NamesSize(children);
    SameSize(Names(children), Elements(names));
  }

  lemma ListsMeans(names: seq<string>, children: set<Child>, child: Child)
    requires Lists(names, children)
    ensures Has(names, child) <==> child in children
    ensures |names| == |children|
  {
    hide Leaf;
    NamesSize(children);
    if Has(names, child) {
      assert Leaf(child) in Names(children);
      var c :| c in children && Leaf(c) == Leaf(child);
      LeavesDiffer(c, child);
    }
    assert child in children ==> Leaf(child) in Elements(names);
  }

  lemma TransactionSound(parent: seq<string>, support: seq<string>, index: nat) returns (k: nat, partial: bool)
    requires NoDuplicates(parent) && NoDuplicates(support) && Has(parent, Support) && index <= TRANSACTION
    requires forall i :: 0 <= i < index ==> Has(support, Final(ARTIFACTS[i]))
    requires TransactionScan(parent, support, index).Some?
    ensures Stands(parent, support, TransactionScan(parent, support, index).value, k, partial)
    decreases TRANSACTION - index
  {
    hide Leaf, SupportChildren, ParentChildren, Lists, NoDuplicates, Has;
    if index == TRANSACTION {
      k, partial := RecoverySound(parent, support, 0);
    } else if Has(support, Final(ARTIFACTS[index])) {
      k, partial := TransactionSound(parent, support, index + 1);
    } else {
      k, partial := index, Has(support, Pending(ARTIFACTS[index]));
      SupportMeans(k, partial);
      ParentMeans(k, partial);
      ArtifactsHaveTheirPlace();
      ListsExactly(support, SupportChildren(k, partial));
      ListsExactly(parent, ParentChildren(k, partial));
    }
  }

  lemma ArtifactsHaveTheirPlace()
    ensures forall i :: 0 <= i < 6 ==> Place(ARTIFACTS[i]) == i
  {
  }

  lemma RecoverySound(parent: seq<string>, support: seq<string>, index: nat) returns (k: nat, partial: bool)
    requires NoDuplicates(parent) && NoDuplicates(support) && Has(parent, Support) && index <= 2
    requires forall i :: 0 <= i < TRANSACTION ==> Has(support, Final(ARTIFACTS[i]))
    requires |support| == TRANSACTION + if Has(support, Abort) then 1 else 0
    requires forall i :: TRANSACTION <= i < TRANSACTION + index ==> Has(parent, Final(ARTIFACTS[i]))
    requires RecoveryScan(parent, Has(support, Abort), index).Some?
    ensures Stands(parent, support, RecoveryScan(parent, Has(support, Abort), index).value, k, partial)
    decreases 2 - index
  {
    hide Leaf, SupportChildren, ParentChildren, Lists, NoDuplicates, Has;
    if index < 2 && Has(parent, Final(ARTIFACTS[TRANSACTION + index])) {
      k, partial := RecoverySound(parent, support, index + 1);
    } else {
      k := TRANSACTION + index;
      partial := index < 2 && Has(parent, Pending(ARTIFACTS[k]));
      SupportMeans(k, partial);
      ParentMeans(k, partial);
      ArtifactsHaveTheirPlace();
      ListsExactly(parent, ParentChildren(k, partial));
      if Has(support, Abort) {
        SupportMeans(6, false);
        ListsExactly(support, SupportChildren(6, false) + {Abort});
      } else {
        ListsExactly(support, SupportChildren(k, partial));
      }
    }
  }

  /** What legal listings answer to every question the scans ask. */
  lemma StandsMeans(parent: seq<string>, support: seq<string>, prefix: Prefix, k: nat, partial: bool, i: nat)
    requires Stands(parent, support, prefix, k, partial) && i < 6
    ensures Has(parent, Support) && (Has(support, Abort) ==> k == 6)
    ensures i < TRANSACTION ==>
      && (Has(support, Final(ARTIFACTS[i])) <==> i < k)
      && (Has(support, Pending(ARTIFACTS[i])) <==> partial && i == k)
    ensures i >= TRANSACTION ==>
      && (Has(parent, Final(ARTIFACTS[i])) <==> i < k)
      && (Has(parent, Pending(ARTIFACTS[i])) <==> partial && i == k)
    ensures |support| == (if k < TRANSACTION then k else TRANSACTION)
                         + (if partial && k < TRANSACTION then 1 else 0) + if Has(support, Abort) then 1 else 0
    ensures |parent| == 1 + (if k > TRANSACTION then k - TRANSACTION else 0)
                        + if partial && k >= TRANSACTION then 1 else 0
  {
    hide Leaf, SupportChildren, ParentChildren, Lists, Has;
    SupportMeans(k, partial);
    ParentMeans(k, partial);
    ArtifactsHaveTheirPlace();
    var children := if Lists(support, SupportChildren(k, partial)) then SupportChildren(k, partial)
                    else SupportChildren(6, false) + {Abort};
    SupportMeans(6, false);
    ListsMeans(parent, ParentChildren(k, partial), Support);
    ListsMeans(parent, ParentChildren(k, partial), Final(ARTIFACTS[i]));
    ListsMeans(parent, ParentChildren(k, partial), Pending(ARTIFACTS[i]));
    ListsMeans(support, children, Abort);
    ListsMeans(support, children, Final(ARTIFACTS[i]));
    ListsMeans(support, children, Pending(ARTIFACTS[i]));
  }

  lemma {:induction false} TransactionComplete(parent: seq<string>, support: seq<string>, prefix: Prefix, k: nat,
                                               partial: bool, index: nat)
    requires Stands(parent, support, prefix, k, partial) && index <= TRANSACTION && index <= k
    ensures TransactionScan(parent, support, index) == Some(prefix)
    decreases TRANSACTION - index
  {
    hide Leaf, Lists, Has;
    StandsMeans(parent, support, prefix, k, partial, index);
    if index == TRANSACTION {
      RecoveryComplete(parent, support, prefix, k, partial, 0);
    } else if index < k {
      TransactionComplete(parent, support, prefix, k, partial, index + 1);
    }
  }

  lemma {:induction false} RecoveryComplete(parent: seq<string>, support: seq<string>, prefix: Prefix, k: nat,
                                            partial: bool, index: nat)
    requires Stands(parent, support, prefix, k, partial) && index <= 2 && TRANSACTION + index <= k
    ensures RecoveryScan(parent, Has(support, Abort), index) == Some(prefix)
    decreases 2 - index
  {
    hide Leaf, Lists, Has;
    if index < 2 {
      StandsMeans(parent, support, prefix, k, partial, TRANSACTION + index);
      if TRANSACTION + index < k {
        RecoveryComplete(parent, support, prefix, k, partial, index + 1);
      }
    } else {
      StandsMeans(parent, support, prefix, k, partial, 0);
    }
  }

  lemma StandsIsAllowed(parent: seq<string>, support: seq<string>, prefix: Prefix, k: nat, partial: bool)
    requires Stands(parent, support, prefix, k, partial)
    ensures NoDuplicates(parent) && NoDuplicates(support)
    ensures Elements(parent) <= Names(ALLOWED_PARENT) && Elements(support) <= Names(ALLOWED_SUPPORT)
  {
    hide Leaf, SupportChildren, ParentChildren;
    SupportMeans(k, partial);
    SupportMeans(6, false);
    ParentMeans(k, partial);
    assert ParentChildren(k, partial) <= ALLOWED_PARENT;
    assert SupportChildren(k, partial) <= ALLOWED_SUPPORT;
    assert SupportChildren(6, false) + {Abort} <= ALLOWED_SUPPORT;
  }

  /** The classifier accepts exactly the listings of a legal prefix, over all lists of names. */
  lemma ClassifyIff(parent: seq<string>, support: seq<string>, prefix: Prefix)
    ensures Classify(parent, support) == Some(prefix) <==> IsLegal(parent, support, prefix)
  {
    hide Leaf, Stands, Names, TransactionScan, Has;
    if Classify(parent, support) == Some(prefix) && prefix != LocatorAndEmptyControllerParent {
      var k, partial := TransactionSound(parent, support, 0);
    }
    if Classify(parent, support) == Some(LocatorAndEmptyControllerParent) {
      NeverEmpty(parent, support, 0);
    }
    if prefix == LocatorAndEmptyControllerParent {
      NothingIsListed(parent, support);
    } else if k: nat, partial: bool :| Stands(parent, support, prefix, k, partial) {
      StandsIsAllowed(parent, support, prefix, k, partial);
      StandsMeans(parent, support, prefix, k, partial, 0);
      TransactionComplete(parent, support, prefix, k, partial, 0);
    }
  }

  lemma {:induction false} NeverEmpty(parent: seq<string>, support: seq<string>, index: nat)
    requires index <= TRANSACTION
    ensures TransactionScan(parent, support, index) != Some(LocatorAndEmptyControllerParent)
    decreases TRANSACTION - index
  {
    if index < TRANSACTION {
      NeverEmpty(parent, support, index + 1);
    }
  }

  lemma NothingIsListed(parent: seq<string>, support: seq<string>)
    ensures parent == [] && support == [] ==>
      NoDuplicates(parent) && NoDuplicates(support) && Elements(parent) == {} && !Has(parent, Support)
  {
  }

  /** The order in which the children are listed makes no difference. */
  lemma OrderIsIrrelevant(p: seq<string>, q: seq<string>, s: seq<string>, t: seq<string>)
    requires multiset(p) == multiset(q) && multiset(s) == multiset(t)
    ensures Classify(p, s) == Classify(q, t)
  {
    hide Classify;
    SameElements(p, q);
    SameElements(s, t);
    if Classify(p, s).Some? {
      OrderKeepsPrefix(p, q, s, t, Classify(p, s).value);
    } else if Classify(q, t).Some? {
      OrderKeepsPrefix(q, p, t, s, Classify(q, t).value);
    }
  }

  lemma SameElements(p: seq<string>, q: seq<string>)
    requires multiset(p) == multiset(q)
    ensures Elements(p) == Elements(q) && |p| == |q|
  {
    assert forall x :: x in p <==> x in multiset(p);
    assert |multiset(p)| == |p| && |multiset(q)| == |q|;
  }

  lemma OrderKeepsPrefix(p: seq<string>, q: seq<string>, s: seq<string>, t: seq<string>, prefix: Prefix)
    requires Elements(p) == Elements(q) && |p| == |q| && Elements(s) == Elements(t) && |s| == |t|
    requires Classify(p, s) == Some(prefix)
    ensures Classify(q, t) == Some(prefix)
  {
    hide Classify, Elements, SupportChildren, ParentChildren, Names;
    ClassifyIff(p, s, prefix);
    if prefix != LocatorAndEmptyControllerParent {
      var k: nat, partial: bool :| Stands(p, s, prefix, k, partial);
      assert Stands(q, t, prefix, k, partial);
    }
    ClassifyIff(q, t, prefix);
  }

  // ------------------------------------------------------- the second classification

  function ListOf(parent: seq<string>, support: seq<string>, i: nat): seq<string> {
    if i < TRANSACTION then support else parent
  }

  /** The files listed for place `i` have the metadata and bytes that the place demands. */
  predicate PlaceVerified(parent: seq<string>, support: seq<string>, verified: set<Child>, i: nat)
    requires i < 6
  {
    && (Has(ListOf(parent, support, i), Final(ARTIFACTS[i])) ==> Final(ARTIFACTS[i]) in verified)
    && (Has(ListOf(parent, support, i), Pending(ARTIFACTS[i])) ==> Pending(ARTIFACTS[i]) in verified)
  }

  predicate AllVerified(parent: seq<string>, support: seq<string>, verified: set<Child>) {
    forall i :: 0 <= i < 6 ==> PlaceVerified(parent, support, verified, i)
  }

  /** Places that nothing was staged for yet have nothing to verify. */
  lemma LaterPlaces(parent: seq<string>, support: seq<string>, verified: set<Child>, prefix: Prefix, k: nat,
                    partial: bool)
    requires Stands(parent, support, prefix, k, partial)
    ensures forall i :: k < i < 6 ==> PlaceVerified(parent, support, verified, i)
    ensures k < 6 && !partial ==> PlaceVerified(parent, support, verified, k)
  {
    hide Has, Stands;
    forall i | k <= i < 6 && (i == k ==> !partial) ensures PlaceVerified(parent, support, verified, i) {
      StandsMeans(parent, support, prefix, k, partial, i);
    }
  }

  /** `classify_resume_stage_prefix`: checks every file, counting as it goes, and agrees with the
      classification of the names whenever the files are what they should be.
      `verified`: the files whose metadata and bytes pass; `sizeMatches`: the support directory
      has the size of its listing; `abortValid`: an abort result has the right contents. */
  method ClassifyStage(parent: seq<string>, listed: seq<string>, verified: set<Child>, sizeMatches: bool,
                       abortValid: bool)
    returns (result: Option<Prefix>)
    ensures var support := if Has(parent, Support) then listed else [];
      result ==
        if && Classify(parent, support).Some?
           && (Has(parent, Support) ==> sizeMatches && AllVerified(parent, support, verified)
                                        && (Has(support, Abort) ==> abortValid))
        then Classify(parent, support) else None
  {
    hide Leaf, Has, Names, Lists, SupportChildren, ParentChildren, TransactionScan;
    if !(Elements(parent) <= Names(ALLOWED_PARENT)) {
      return None;
    }
    if !Has(parent, Support) {
      return Classify(parent, []);
    }
    var support := listed;
    var observed := Classify(parent, support);
    if observed.None? || !sizeMatches || !(Elements(support) <= Names(ALLOWED_SUPPORT)) {
      return None;
    }
    ClassifyIff(parent, support, observed.value);
    if observed.value == LocatorAndEmptyControllerParent {
      NothingIsListed(parent, support);
    }
    hide Classify;
    ghost var k: nat, partial: bool :| Stands(parent, support, observed.value, k, partial);
    LaterPlaces(parent, support, verified, observed.value, k, partial);
    result := ClassifyTransaction(parent, support, verified, abortValid, observed.value, k, partial);
  }

  /** The loop over the transaction files. */
  method ClassifyTransaction(parent: seq<string>, support: seq<string>, verified: set<Child>, abortValid: bool,
                             ghost prefix: Prefix, ghost k: nat, ghost partial: bool) returns (result: Option<Prefix>)
    requires Stands(parent, support, prefix, k, partial)
    requires forall i :: k < i < 6 ==> PlaceVerified(parent, support, verified, i)
    requires k < 6 && !partial ==> PlaceVerified(parent, support, verified, k)
    ensures result ==
      if AllVerified(parent, support, verified) && (Has(support, Abort) ==> abortValid) then Some(prefix) else None
  {
    hide Has, Lists, SupportChildren, ParentChildren;
    var abort := Has(support, Abort);
    var completed := 0;
    for i := 0 to TRANSACTION
      invariant completed == i <= k
      invariant forall j :: 0 <= j < i ==> PlaceVerified(parent, support, verified, j)
    {
      StandsMeans(parent, support, prefix, k, partial, i);
      var artifact := ARTIFACTS[i];
      var final, pending := Has(support, Final(artifact)), Has(support, Pending(artifact));
      if final && pending {
        return None;
      }
      if final {
        if Final(artifact) !in verified {
          assert !PlaceVerified(parent, support, verified, i);
          return None;
        }
        completed := completed + 1;
      } else if pending {
        if Pending(artifact) !in verified {
          assert !PlaceVerified(parent, support, verified, i);
          return None;
        }
        if completed != i {
          return None;
        }
        return Some(Partial(artifact));
      } else {
        if abort || completed != i || |support| != completed || |parent| != 1 {
          return None;
        }
        return Some(WholePrefix(completed));
      }
    }
    StandsMeans(parent, support, prefix, k, partial, 0);
    if |support| != TRANSACTION + (if abort then 1 else 0) {
      return None;
    }
    result := ClassifyRecovery(parent, support, verified, abortValid, prefix, k, partial);
  }

  /** The loop over the recovery files. */
  method ClassifyRecovery(parent: seq<string>, support: seq<string>, verified: set<Child>, abortValid: bool,
                          ghost prefix: Prefix, ghost k: nat, ghost partial: bool) returns (result: Option<Prefix>)
    requires Stands(parent, support, prefix, k, partial) && k >= TRANSACTION
    requires forall i :: 0 <= i < TRANSACTION || k < i < 6 ==> PlaceVerified(parent, support, verified, i)
    requires k < 6 && !partial ==> PlaceVerified(parent, support, verified, k)
    ensures result ==
      if AllVerified(parent, support, verified) && (Has(support, Abort) ==> abortValid) then Some(prefix) else None
  {
    hide Has, Lists, SupportChildren, ParentChildren;
    var abort := Has(support, Abort);
    StandsMeans(parent, support, prefix, k, partial, 4);
    StandsMeans(parent, support, prefix, k, partial, 5);
    if abort && (!Has(parent, Final(RecoveryController)) || !Has(parent, Final(RecoveryPin))) {
      return None;
    }
    var completed := 0;
    for i := 0 to 2
      invariant completed == i && TRANSACTION + i <= k
      invariant forall j :: 0 <= j < TRANSACTION + i ==> PlaceVerified(parent, support, verified, j)
    {
      StandsMeans(parent, support, prefix, k, partial, TRANSACTION + i);
      var artifact := ARTIFACTS[TRANSACTION + i];
      var final, pending := Has(parent, Final(artifact)), Has(parent, Pending(artifact));
      if final && pending {
        return None;
      }
      if final {
        if Final(artifact) !in verified {
          assert !PlaceVerified(parent, support, verified, TRANSACTION + i);
          return None;
        }
        completed := completed + 1;
      } else if pending {
        if Pending(artifact) !in verified {
          assert !PlaceVerified(parent, support, verified, TRANSACTION + i);
          return None;
        }
        return Some(Partial(artifact));
      } else {
        if |parent| != 1 + completed {
          return None;
        }
        return Some(if completed == 0 then TransactionBootstrapRequest else FixedRecoveryController);
      }
    }
    if |parent| != 3 || (abort && !abortValid) {
      return None;
    }
    return Some(Complete);
  }
}
