/** Calendar days, shared by the time sheet and the TODO deadlines. */
module Calendar {

  /** A calendar day, as a day number: consecutive days have consecutive
      numbers, so later days compare greater. */
  type Date = int
}
