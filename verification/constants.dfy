/** The string-valued enumerations stored in SQLite and their validators
    (backend/src/utils/constants.ts). Matching is exact string equality. */
module Constants {

  const Admin: string := "ADMIN"
  const Employee: string := "EMPLEADO"

  const Entry: string := "ENTRADA"
  const Exit: string := "SALIDA"

  const Vacation: string := "VACACION"
  const SickLeave: string := "INCAPACIDAD"
  const Leave: string := "PERMISO"

  /** `Object.values(Rol)`, `Object.values(AsistenciaTipo)`,
      `Object.values(ExcepcionTipo)`. */
  const Roles: seq<string> := [Admin, Employee]
  const AttendanceTypes: seq<string> := [Entry, Exit]
  const ExceptionTypes: seq<string> := [Vacation, SickLeave, Leave]

  /** `isValidRol(value)`. */
  predicate IsValidRol(value: string)
    ensures IsValidRol(value) <==> value == "ADMIN" || value == "EMPLEADO"
  {
    value in Roles
  }

  /** `isValidAsistenciaTipo(value)`. */
  predicate IsValidAttendanceType(value: string)
    ensures IsValidAttendanceType(value) <==> value == "ENTRADA" || value == "SALIDA"
  {
    value in AttendanceTypes
  }

  /** `isValidExcepcionTipo(value)`. */
  predicate IsValidExceptionType(value: string)
    ensures IsValidExceptionType(value) <==> value == "VACACION" || value == "INCAPACIDAD" || value == "PERMISO"
  {
    value in ExceptionTypes
  }

  /** Validation is case-sensitive and does not trim. */
  lemma ValidatorsCaseSensitive()
    ensures !IsValidAttendanceType("entrada") && !IsValidAttendanceType("Salida")
    ensures !IsValidAttendanceType(" ENTRADA")
    ensures !IsValidRol("admin") && !IsValidExceptionType("permiso")
  {
    assert "entrada"[0] != "ENTRADA"[0] && "entrada"[0] != "SALIDA"[0];
    assert "Salida"[1] != "ENTRADA"[1] && "Salida"[1] != "SALIDA"[1];
    assert " ENTRADA"[0] != "ENTRADA"[0] && " ENTRADA"[0] != "SALIDA"[0];
    assert "admin"[0] != "ADMIN"[0] && "admin"[0] != "EMPLEADO"[0];
    assert "permiso"[0] != "VACACION"[0] && "permiso"[0] != "INCAPACIDAD"[0] && "permiso"[0] != "PERMISO"[0];
  }
}
