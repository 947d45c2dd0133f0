/** The rows of the two tables the salon keeps: the client table and the appointment table. */
module Records {
  import opened Wrappers

  /** A calendar day, as a day number; the program writes it as day/month/year. */
  type Date = int

  /** A row of the client table (columns DNI, Nombre, Teléfono, Detalle).
      The text fields come from dialogs and are None when the dialog was cancelled. */
  datatype Client = Client(dni: string, name: Option<string>, phone: Option<string>, note: Option<string>)

  /** A row of the appointment table (columns DNI, Cliente, Fecha, Hora, Servicio).
      `client` is a copy of the client's name taken at booking time. */
  datatype Appt = Appt(dni: string, client: Option<string>, date: Date, time: string, service: Option<string>)
}
