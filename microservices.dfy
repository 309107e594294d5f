/** The fan-out client of the main service (main_service/src/microservices.py):
    a manager holding the configured backends, which asks every backend
    whether a group is ready, sends a group's posts to every backend, and
    routes a generation request to one backend by its docker name.

    An HTTP exchange is not modelled; what a backend answers to one request
    is given as an `Answer`, and a call that fans out over all backends takes
    one answer per backend, in the order of the configured list. */
module Microservices {
  import opened Types

  /** One configured backend (the `MicroserviceData` of the configuration). */
  datatype Service = Service(dockerName: string, url: string, port: int)

  /** A `result` text other than the two the manager looks for. */
  type OtherText = t: string | t != "OK" && t != "ERROR" witness ""

  /** The `result` field of a backend's JSON reply: the string "OK", the
      string "ERROR", any other text, or no usable reply at all (timeout,
      refused connection, a body that is not JSON or has no `result`). */
  datatype Answer = Ok | Error | Other(text: OtherText) | Unreachable

  /** The answer a `result` text stands for. */
  function AnswerOf(result: string): (a: Answer)
    ensures a != Unreachable
    ensures a == Ok <==> result == "OK"
    ensures a == Error <==> result == "ERROR"
  {
    if result == "OK" then Ok
    else if result == "ERROR" then Error
    else Other(result)
  }

  /** The `result` text of an answer that came back. */
  function ResultText(a: Answer): string
    requires a != Unreachable
  {
    match a
    case Ok => "OK"
    case Error => "ERROR"
    case Other(t) => t
  }

  /** Every `result` text has exactly one answer and every answer that came
      back exactly one text. */
  lemma AnswerOfRoundTrip(result: string, a: Answer)
    requires a != Unreachable
    ensures ResultText(AnswerOf(result)) == result
    ensures AnswerOf(ResultText(a)) == a
  {
  }

  /** An answer that makes the manager raise: "ERROR" or a failed exchange. */
  predicate Aborts(a: Answer)
  {
    a == Error || a == Unreachable
  }

  /** Some answer in the list makes the manager raise. */
  predicate AnyAborts(answers: seq<Answer>)
  {
    exists j :: 0 <= j < |answers| && Aborts(answers[j])
  }

  /** Index of the first answer that makes the manager raise, or the length
      of the list when there is none. */
  function FirstAbort(answers: seq<Answer>): (k: nat)
    ensures k <= |answers|
    ensures forall j :: 0 <= j < k ==> !Aborts(answers[j])
    ensures k < |answers| ==> Aborts(answers[k])
  {
    if answers == [] then 0
    else if Aborts(answers[0]) then 0
    else FirstAbort(answers[1..]) + 1
  }

  /** Number of backends that answered "OK". */
  function CountOk(answers: seq<Answer>): nat
  {
    if answers == [] then 0
    else CountOk(answers[..|answers| - 1]) + (if answers[|answers| - 1] == Ok then 1 else 0)
  }

  /** Reference definition of the overall readiness of a group: the
      conjunction of the backends' answers, raising on the first "ERROR" or
      failed exchange. */
  function Readiness(answers: seq<Answer>): Result<bool>
  {
    if answers == [] then Success(true)
    else if Aborts(answers[0]) then Failure(MicroserviceException)
    else match Readiness(answers[1..])
      case Failure(e) => Failure(e)
      case Success(b) => Success(answers[0] == Ok && b)
  }

  /** Readiness raises iff some backend answered "ERROR" or could not be
      reached, and otherwise is true iff every backend answered "OK". */
  lemma {:induction false} ReadinessMeaning(answers: seq<Answer>)
    ensures Readiness(answers).Failure? <==> AnyAborts(answers)
    ensures Readiness(answers).Failure? ==> Readiness(answers).exc == MicroserviceException
    ensures Readiness(answers).Success? ==>
              (Readiness(answers).value <==> forall j :: 0 <= j < |answers| ==> answers[j] == Ok)
  {
    if answers != [] {
      ReadinessMeaning(answers[1..]);
      assert forall j :: 1 <= j < |answers| ==> answers[j] == answers[1..][j - 1];
    }
  }

  /** The number of "OK" answers reaches the number of answers exactly when
      all of them are "OK". */
  lemma {:induction false} CountOkAll(answers: seq<Answer>)
    ensures CountOk(answers) <= |answers|
    ensures CountOk(answers) == |answers| <==> forall j :: 0 <= j < |answers| ==> answers[j] == Ok
  {
    if answers != [] {
      var init := answers[..|answers| - 1];
      CountOkAll(init);
      assert forall j :: 0 <= j < |init| ==> init[j] == answers[j];
    }
  }

  /** Index of the first backend whose docker name is `name`, if any. */
  function FindService(services: seq<Service>, name: string): (r: Option<nat>)
    ensures r.None? <==> forall i :: 0 <= i < |services| ==> services[i].dockerName != name
    ensures r.Some? ==> r.value < |services| && services[r.value].dockerName == name
    ensures r.Some? ==> forall i :: 0 <= i < r.value ==> services[i].dockerName != name
  {
    if services == [] then None
    else if services[0].dockerName == name then Some(0)
    else match FindService(services[1..], name)
      case None => None
      case Some(k) => Some(k + 1)
  }

  /** What `generate` returns or raises, given the answer of the backend it
      contacts. With no backend of that name, the re-raise in the except
      clause reads `service` before it was ever bound. */
  function GenerateResult(services: seq<Service>, name: string, answer: Answer): (r: Result<string>)
    ensures FindService(services, name).None? ==> r == Failure(UnboundLocalError)
    ensures FindService(services, name).Some? ==>
              (r.Failure? <==> Aborts(answer)) && (r.Failure? ==> r.exc == MicroserviceException)
    ensures answer == Ok && FindService(services, name).Some? ==> r == Success("OK")
    ensures answer.Other? && FindService(services, name).Some? ==> r == Success(answer.text)
  {
    if FindService(services, name).None? then Failure(UnboundLocalError)
    else match answer
      case Ok => Success("OK")
      case Other(s) => Success(s)
      case Error => Failure(MicroserviceException)
      case Unreachable => Failure(MicroserviceException)
  }

  class MicroserviceManager {
    const services: seq<Service>

    constructor (services: seq<Service>)
      ensures this.services == services
    {
      this.services := services;
    }

    /** `add_group`: posts the group's texts to each backend in list order and
        stops at the first "ERROR" or failed exchange. `contacted` is the
        number of backends that received the request. */
    method AddGroup(answers: seq<Answer>) returns (r: Outcome, contacted: nat)
      requires |answers| == |services|
      ensures r.Fail? <==> AnyAborts(answers)
      ensures r.Fail? ==> r.exc == MicroserviceException && contacted == FirstAbort(answers) + 1
      ensures r.Pass? ==> contacted == |services|
    {
      var i := 0;
      while i < |services|
        invariant 0 <= i <= |services|
        invariant forall j :: 0 <= j < i ==> !Aborts(answers[j])
      {
        var result := answers[i];
        if result == Error || result == Unreachable {
          assert FirstAbort(answers) == i;
          return Fail(MicroserviceException), i + 1;
        }
        i := i + 1;
      }
      r, contacted := Pass, |services|;
    }

    /** `generate`: finds the first backend named `name` and returns its
        answer unchanged unless it is "ERROR" or the exchange fails.
        `contacted` is the index of the backend that received the request,
        or None when none did. */
    method Generate(name: string, answer: Answer) returns (r: Result<string>, contacted: Option<nat>)
      ensures contacted == FindService(services, name)
      ensures r == GenerateResult(services, name, answer)
    {
      var serviceInd := -1;
      var i := 0;
      while i < |services|
        invariant 0 <= i <= |services|
        invariant forall j :: 0 <= j < i ==> services[j].dockerName != name
      {
        if services[i].dockerName == name {
          serviceInd := i;
          break;
        }
        i := i + 1;
      }
      if serviceInd == -1 {
        return Failure(UnboundLocalError), None;
      }
      contacted := Some(serviceInd);
      match answer {
        case Ok => r := Success("OK");
        case Other(s) => r := Success(s);
        case Error => r := Failure(MicroserviceException);
        case Unreachable => r := Failure(MicroserviceException);
      }
    }

    /** `check_status`: asks every backend in list order, counting the "OK"
        answers and raising at the first "ERROR" or failed exchange; the group
        is ready iff every backend answered "OK". `queried` is the number of
        backends that were asked. */
    method CheckStatus(answers: seq<Answer>) returns (r: Result<bool>, queried: nat)
      requires |answers| == |services|
      ensures r == Readiness(answers)
      ensures r.Failure? <==> AnyAborts(answers)
      ensures r.Failure? ==> queried == FirstAbort(answers) + 1
      ensures r.Success? ==> queried == |services|
      ensures r.Success? ==> (r.value <==> forall j :: 0 <= j < |answers| ==> answers[j] == Ok)
    {
      ReadinessMeaning(answers);
      var readyCount := 0;
      var totalCount := |services|;
      var i := 0;
      while i < |services|
        invariant 0 <= i <= |services|
        invariant readyCount == CountOk(answers[..i])
        invariant readyCount <= i
        invariant forall j :: 0 <= j < i ==> !Aborts(answers[j])
      {
        var result := answers[i];
        if result == Error || result == Unreachable {
          assert FirstAbort(answers) == i;
          return Failure(MicroserviceException), i + 1;
        }
        assert answers[..i + 1][..i] == answers[..i];
        if result == Ok {
          readyCount := readyCount + 1;
        }
        i := i + 1;
      }
      assert answers[..i] == answers;
      CountOkAll(answers);
      r, queried := Success(readyCount == totalCount), |services|;
    }
  }
}
