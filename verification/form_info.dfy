/** `ItemStack::GetBasicFormInfo`: a form's type and ID, and for a form list
    the same information for each of its members, recursively. */
module FormInfo {
  import opened Wrappers
  import opened Forms

  /** The object built for one form: its type, its ID and, exactly for form
      lists, the `forms` member array. */
  datatype Info = Info(formType: FormType, formId: FormId, forms: InfoArray)

  /** The `forms` member: absent, or an array of objects. */
  datatype InfoArray = Absent | Array(items: seq<Info>)

  function GetBasicFormInfo(form: Form): (info: Info)
    ensures info.formType == form.formType && info.formId == form.id
    ensures info.forms.Array? <==> form.asList.ListForm?
    ensures info.forms.Array? ==> |info.forms.items| == |form.asList.members|
    decreases form
  {
    Info(form.formType, form.id,
      match form.asList
      case NotAList => Absent
      case ListForm(members) => Array(MemberInfos(members)))
  }

  /** The member array of a form list: one object per member, in list
      order, the i-th being the info object of the i-th member. */
  function MemberInfos(members: seq<Form>): (infos: seq<Info>)
    ensures |infos| == |members|
    ensures forall i :: 0 <= i < |members| ==> infos[i] == GetBasicFormInfo(members[i])
    decreases members
  {
    if |members| == 0 then []
    else
      var init := members[..|members| - 1];
      assert forall i :: 0 <= i < |init| ==> init[i] == members[i];
      MemberInfos(init) + [GetBasicFormInfo(members[|members| - 1])]
  }

  /** One pre-order node: a form's type and ID, with its member count when
      it is a form list and `None` otherwise. The counts make a pre-order
      determine the nesting. */
  type Node = (FormType, FormId, Option<nat>)

  /** Reference definition: the nodes of a form and of every form reachable
      through list membership, in depth-first pre-order. */
  function Reachable(form: Form): seq<Node>
    decreases form
  {
    [(form.formType, form.id, match form.asList case NotAList => None case ListForm(members) => Some(|members|))]
      + match form.asList
      case NotAList => []
      case ListForm(members) => ReachableAll(members)
  }

  function ReachableAll(members: seq<Form>): seq<Node>
    decreases members
  {
    if |members| == 0 then []
    else ReachableAll(members[..|members| - 1]) + Reachable(members[|members| - 1])
  }

  /** The node an info object reports for itself. */
  function NodeOf(info: Info): Node {
    (info.formType, info.formId, match info.forms case Absent => None case Array(items) => Some(|items|))
  }

  /** The nodes an info object reports, in depth-first pre-order. */
  function Reported(info: Info): seq<Node>
    decreases info
  {
    [NodeOf(info)] + ReportedMembers(info)
  }

  /** The nodes reported below an info object's own node. */
  function ReportedMembers(info: Info): seq<Node>
    decreases info, 0
  {
    match info.forms
    case Absent => []
    case Array(items) => ReportedAll(items)
  }

  function ReportedAll(items: seq<Info>): seq<Node>
    decreases items
  {
    if |items| == 0 then []
    else ReportedAll(items[..|items| - 1]) + Reported(items[|items| - 1])
  }

  /** The info object reports every form reachable from `form`, each with
      its own type, ID and member count, in order: nothing is lost, added,
      reordered or moved to another list at any depth. */
  lemma {:induction false} InfoReportsReachable(form: Form)
    ensures Reported(GetBasicFormInfo(form)) == Reachable(form)
    decreases form
  {
    match form.asList
    case NotAList =>
    case ListForm(members) => InfoReportsReachableAll(members);
  }

  lemma {:induction false} InfoReportsReachableAll(members: seq<Form>)
    ensures ReportedAll(MemberInfos(members)) == ReachableAll(members)
    decreases members
  {
    if |members| > 0 {
      var init := members[..|members| - 1];
      InfoReportsReachableAll(init);
      InfoReportsReachable(members[|members| - 1]);
      assert MemberInfos(members)[..|members| - 1] == MemberInfos(init);
    }
  }

  /** The pre-order of a non-empty member array, read from the front. */
  lemma {:induction false} ReportedAllFront(items: seq<Info>)
    requires |items| > 0
    ensures ReportedAll(items) == Reported(items[0]) + ReportedAll(items[1..])
    decreases |items|
  {
    if |items| > 1 {
      var init := items[..|items| - 1];
      ReportedAllFront(init);
      assert init[0] == items[0];
      assert init[1..] == items[1..][..|items[1..]| - 1];
    } else {
      assert items[..0] == [];
    }
  }

  /** A pre-order with member counts parses in one way only: when two info
      objects' pre-orders, each followed by something, agree, the objects
      agree and so do the remainders. */
  lemma {:induction false} ReportedParsesUniquely(a: Info, b: Info, restA: seq<Node>, restB: seq<Node>)
    requires Reported(a) + restA == Reported(b) + restB
    ensures a == b && restA == restB
    decreases a
  {
    var tailA := ReportedMembers(a) + restA;
    var tailB := ReportedMembers(b) + restB;
    assert Reported(a) + restA == [NodeOf(a)] + tailA;
    assert Reported(b) + restB == [NodeOf(b)] + tailB;
    assert NodeOf(a) == ([NodeOf(a)] + tailA)[0] == ([NodeOf(b)] + tailB)[0] == NodeOf(b);
    assert tailA == ([NodeOf(a)] + tailA)[1..] == ([NodeOf(b)] + tailB)[1..] == tailB;
    match a.forms
    case Absent =>
      assert b.forms.Absent?;
      assert tailA == restA && tailB == restB;
    case Array(xs) =>
      var ys := b.forms.items;
      assert |xs| == |ys|;
      ReportedAllParsesUniquely(xs, ys, restA, restB);
  }

  lemma {:induction false} ReportedAllParsesUniquely(xs: seq<Info>, ys: seq<Info>, restA: seq<Node>, restB: seq<Node>)
    requires |xs| == |ys|
    requires ReportedAll(xs) + restA == ReportedAll(ys) + restB
    ensures xs == ys && restA == restB
    decreases xs
  {
    if |xs| == 0 {
      assert ReportedAll(xs) + restA == restA;
      assert ReportedAll(ys) + restB == restB;
    } else {
      ReportedAllFront(xs);
      ReportedAllFront(ys);
      var tailA := ReportedAll(xs[1..]) + restA;
      var tailB := ReportedAll(ys[1..]) + restB;
      assert ReportedAll(xs) + restA == Reported(xs[0]) + tailA;
      assert ReportedAll(ys) + restB == Reported(ys[0]) + tailB;
      ReportedParsesUniquely(xs[0], ys[0], tailA, tailB);
      ReportedAllParsesUniquely(xs[1..], ys[1..], restA, restB);
      assert xs == [xs[0]] + xs[1..];
      assert ys == [ys[0]] + ys[1..];
    }
  }

  /** The reference pre-order pins the info object down: the only object
      reporting exactly the forms reachable from `form`, with their member
      counts, is `GetBasicFormInfo(form)`. */
  lemma InfoDeterminedByReachable(form: Form, info: Info)
    ensures Reported(info) == Reachable(form) <==> info == GetBasicFormInfo(form)
  {
    InfoReportsReachable(form);
    if Reported(info) == Reachable(form) {
      assert Reported(info) + [] == Reported(GetBasicFormInfo(form)) + [];
      ReportedParsesUniquely(info, GetBasicFormInfo(form), [], []);
    }
  }
}
