/**
 * The `DrupalTranslation` record: one interface string of one language.
 * It is the schema registered for Gatsby nodes and the shape of the nodes
 * that the table builder receives.
 */
module Records {

  datatype TranslationRecord = TranslationRecord(source: string, translation: string, langcode: string)
}
