/** Rows of the tables that more than one part of the booking model reads. */
module MoodleTables {

  /** A row of the context table: its level (10 system, 40 course category,
      70 course module, ...), the instance it stands for (a category id, a
      course module id, ...) and its materialized path of ancestor ids. */
  datatype Context = Context(id: int, contextlevel: int, instanceid: int, path: string)

  /** A row of booking_answers; waitinglist is the answer's state (0 booked,
      1 on the waiting list, 2 reserved). */
  datatype Answer = Answer(id: int, userid: int, optionid: int, waitinglist: int, timemodified: int)
}
