/** The employee list the admin screens keep in memory
    (frontend/src/hooks/useEmployees.ts): how each service call's answer
    changes it. The service calls are inputs; `Err` is a call that threw.
 */
module EmployeesHook {

  import opened Wrappers

  /** An `Employee` as the API returns it. */
  datatype Employee = Employee(id: string, name: string, phone: Option<string>, position: Option<string>,
                               area: Option<string>, active: bool, imageCount: nat)

  /** The hook's state. */
  datatype HookState = HookState(employees: seq<Employee>, loading: bool)

  /** `Array.prototype.filter` on employees: the elements satisfying `p`,
      in order. */
  function Keep(list: seq<Employee>, p: Employee -> bool): (r: seq<Employee>)
    ensures |r| <= |list|
    ensures forall e :: e in r <==> e in list && p(e)
    decreases |list|
  {
    if |list| == 0 then []
    else
      assert forall e :: e in list <==> e == list[0] || e in list[1..];
      (if p(list[0]) then [list[0]] else []) + Keep(list[1..], p)
  }

  /** Filtering a concatenation filters each part: the kept elements stay
      in their original order. */
  lemma {:induction false} KeepAppend(a: seq<Employee>, b: seq<Employee>, p: Employee -> bool)
    ensures Keep(a + b, p) == Keep(a, p) + Keep(b, p)
    decreases |a|
  {
    if |a| == 0 {
      assert a + b == b;
    } else {
      assert (a + b)[0] == a[0];
      assert (a + b)[1..] == a[1..] + b;
      KeepAppend(a[1..], b, p);
    }
  }

  /** Filtering keeps a list whose elements all pass. */
  lemma {:induction false} KeepAll(list: seq<Employee>, p: Employee -> bool)
    requires forall i :: 0 <= i < |list| ==> p(list[i])
    ensures Keep(list, p) == list
    decreases |list|
  {
    if |list| > 0 {
      KeepAll(list[1..], p);
    }
  }

  /** `prev.map(emp => emp.id === id ? updated : emp)`. */
  function ReplaceById(list: seq<Employee>, id: string, updated: Employee): (r: seq<Employee>)
    ensures |r| == |list|
    ensures forall i :: 0 <= i < |list| ==> r[i] == (if list[i].id == id then updated else list[i])
    decreases |list|
  {
    if |list| == 0 then []
    else [if list[0].id == id then updated else list[0]] + ReplaceById(list[1..], id, updated)
  }

  /** The test `emp.id !== id`. */
  function Without(id: string): (p: Employee -> bool)
    ensures forall e :: p(e) <==> e.id != id
  {
    (e: Employee) => e.id != id
  }

  /** `prev.filter(emp => emp.id !== id)`. */
  function RemoveById(list: seq<Employee>, id: string): (r: seq<Employee>)
    ensures forall e :: e in r <==> e in list && e.id != id
  {
    Keep(list, Without(id))
  }

  /** `createEmployee(data)`: the new employee goes to the end; on failure
      the list is unchanged and the error is thrown again. */
  function CreateEmployee(s: HookState, reply: Result<Employee>): (r: (HookState, Result<Employee>))
    ensures r.1 == reply && !r.0.loading
    ensures reply.Ok? ==> r.0.employees == s.employees + [reply.value]
    ensures reply.Err? ==> r.0.employees == s.employees
  {
    match reply
    case Err(_) => (s.(loading := false), reply)
    case Ok(e) => (HookState(s.employees + [e], false), reply)
  }

  /** `updateEmployee(id, data)`. */
  function UpdateEmployee(s: HookState, id: string, reply: Result<Employee>): (r: (HookState, Result<Employee>))
    ensures r.1 == reply && !r.0.loading
    ensures reply.Ok? ==> r.0.employees == ReplaceById(s.employees, id, reply.value)
    ensures reply.Err? ==> r.0.employees == s.employees
  {
    match reply
    case Err(_) => (s.(loading := false), reply)
    case Ok(e) => (HookState(ReplaceById(s.employees, id, e), false), reply)
  }

  /** `deleteEmployee(id)`: `error` is the message of a call that threw. */
  function DeleteEmployee(s: HookState, id: string, error: Option<string>): (r: (HookState, Option<string>))
    ensures r.1 == error && !r.0.loading
    ensures error.None? ==> r.0.employees == RemoveById(s.employees, id)
    ensures error.Some? ==> r.0.employees == s.employees
  {
    if error.Some? then (s.(loading := false), error)
    else (HookState(RemoveById(s.employees, id), false), None)
  }

  /** `employees.find(emp => emp.id === id)`. */
  function FindById(list: seq<Employee>, id: string): (r: Option<Employee>)
    ensures r.None? <==> forall e :: e in list ==> e.id != id
    ensures r.Some? ==> exists i :: (0 <= i < |list| && list[i] == r.value && r.value.id == id &&
                                     forall j :: 0 <= j < i ==> list[j].id != id)
    decreases |list|
  {
    if |list| == 0 then None
    else if list[0].id == id then Some(list[0])
    else
      var rest := FindById(list[1..], id);
      assert forall e :: e in list <==> e == list[0] || e in list[1..];
      assert forall j :: 1 <= j < |list| ==> list[j] == list[1..][j - 1];
      rest
  }

  /** `toggleEmployeeStatus(id)`: the list as after an update, and the
      toast title, which reads the employee from the list captured before
      the call. */
  function ToggleEmployeeStatus(s: HookState, id: string, reply: Result<Employee>)
    : (r: (HookState, Result<Employee>, Option<string>))
    ensures r.1 == reply && !r.0.loading
    ensures reply.Ok? ==> r.0.employees == ReplaceById(s.employees, id, reply.value)
    ensures reply.Err? ==> r.0.employees == s.employees && r.2.None?
    ensures r.2.Some? <==> reply.Ok? && FindById(s.employees, id).Some?
    ensures r.2.Some? ==> (r.2.value == "Empleado desactivado" <==> FindById(s.employees, id).value.active)
  {
    match reply
    case Err(_) => (s.(loading := false), reply, None)
    case Ok(e) =>
      var toast := match FindById(s.employees, id)
                   case None => None
                   case Some(before) => Some(if before.active then "Empleado desactivado" else "Empleado activado");
      (HookState(ReplaceById(s.employees, id, e), false), reply, toast)
  }

  /** When the server flips the flag, the toast still names the new state
      correctly, because it reads the flag from before the call. */
  lemma {:induction false} ToggleToastNamesNewState(s: HookState, id: string, reply: Result<Employee>)
    requires reply.Ok? && FindById(s.employees, id).Some?
    requires reply.value.active == !FindById(s.employees, id).value.active
    ensures var toast := ToggleEmployeeStatus(s, id, reply).2;
            toast == Some(if reply.value.active then "Empleado activado" else "Empleado desactivado")
  {
  }

  /** Deleting an id removes every employee with it and keeps the rest in
      their order. */
  lemma {:induction false} RemoveByIdSplits(a: seq<Employee>, b: seq<Employee>, id: string)
    ensures RemoveById(a + b, id) == RemoveById(a, id) + RemoveById(b, id)
    ensures (forall i :: 0 <= i < |a| ==> a[i].id != id) ==> RemoveById(a, id) == a
  {
    KeepAppend(a, b, Without(id));
    if forall i :: 0 <= i < |a| ==> a[i].id != id {
      KeepAll(a, Without(id));
    }
  }
}
